/** Directory objects of the content-addressed file-system store.

    Object ids are free terms over the content they name, which is exactly what an injective,
    well-founded hash gives: equal ids mean equal contents, and no object contains itself.
    The empty file and the empty directory share the one id EmptyId (EMPTY_SHA1). */
module FsObjects {
  import opened Names

  datatype Id =
    | EmptyId                          // EMPTY_SHA1
    | FileId(content: string)          // a non-empty file object
    | DirId(entries: seq<Dirent>)      // a non-empty directory object

  /** A directory entry.  `isDir` and `perm` together are the mode word. */
  datatype Dirent = Dirent(name: Name, isDir: bool, perm: nat, id: Id,
                           mtime: int, modifier: string, size: int)

  type Path = seq<Name>

  /** The entries an id resolves to; the empty directory has none. */
  function Entries(id: Id): seq<Dirent> {
    if id.DirId? then id.entries else []
  }

  /** The id of a directory with the given entries. */
  function DirIdOf(es: seq<Dirent>): Id {
    if es == [] then EmptyId else DirId(es)
  }

  function Max(a: nat, b: nat): nat {
    if a < b then b else a
  }

  /** Levels of directories below a list of entries. */
  function Height(es: seq<Dirent>): nat {
    if es == [] then 0
    else Max(DirentHeight(es[0]), Height(es[1..]))
  }

  function DirentHeight(e: Dirent): nat
  {
    if e.isDir && e.id.DirId? then 1 + Height(e.id.entries)
    else if e.isDir then 1
    else 0
  }

  lemma {:induction false} MemberHeight(es: seq<Dirent>, e: Dirent)
    requires e in es
    ensures DirentHeight(e) <= Height(es)
  {
    if e != es[0] {
      MemberHeight(es[1..], e);
    }
  }

  lemma TailHeight(es: seq<Dirent>)
    requires es != []
    ensures Height(es[1..]) <= Height(es)
  {
  }

  /** The names of a list, each strictly above the next: how directories are stored. */
  predicate SortedDescending(es: seq<Dirent>) {
    forall i, j :: 0 <= i < j < |es| ==> Less(es[j].name, es[i].name)
  }

  /** Entries are files or directories with distinct names in descending order, at every level. */
  predicate WellFormed(es: seq<Dirent>)
  {
    && SortedDescending(es)
    && forall e :: e in es ==> WellFormedDirent(e)
  }

  predicate WellFormedDirent(e: Dirent)
  {
    if e.isDir then
      e.id.EmptyId? || (e.id.DirId? && e.id.entries != [] && WellFormed(e.id.entries))
    else
      !e.id.DirId?
  }

  /** The first entry of that name. */
  function Lookup(es: seq<Dirent>, name: Name): (r: Option<Dirent>)
    ensures r.Some? ==> r.value in es && r.value.name == name
    ensures r.None? ==> forall e :: e in es ==> e.name != name
  {
    if es == [] then None
    else if es[0].name == name then Some(es[0])
    else Lookup(es[1..], name)
  }

  /** The file entry at a path below a directory. */
  function FileAt(es: seq<Dirent>, path: Path): Option<Dirent>
    decreases |path|
  {
    if path == [] then None
    else
      match Lookup(es, path[0])
      case None => None
      case Some(e) =>
        if |path| == 1 then (if e.isDir then None else Some(e))
        else if e.isDir then FileAt(Entries(e.id), path[1..])
        else None
  }

  /** The tree flattened to a map from path to file id. */
  function FileIdAt(es: seq<Dirent>, path: Path): Option<Id> {
    match FileAt(es, path)
    case None => None
    case Some(e) => Some(e.id)
  }

  lemma SortedNamesDiffer(es: seq<Dirent>, a: Dirent, b: Dirent)
    requires SortedDescending(es) && a in es && b in es && a.name == b.name
    ensures a == b
  {
    StrictTotalOrder();
    var i :| 0 <= i < |es| && es[i] == a;
    var j :| 0 <= j < |es| && es[j] == b;
  }

  /** In a sorted directory a name leads to one entry only. */
  lemma LookupFinds(es: seq<Dirent>, e: Dirent)
    requires SortedDescending(es) && e in es
    ensures Lookup(es, e.name) == Some(e)
  {
    SortedNamesDiffer(es, e, Lookup(es, e.name).value);
  }
}
