/** The on-disk store of directory objects. */
module FsStore {
  import opened Names
  import opened FsObjects

  /** A directory object in memory: its id and its entries. */
  datatype SeafDir = SeafDir(dirId: Id, entries: seq<Dirent>)

  /** Everything reachable from a directory id is on disk; the empty directory needs no object. */
  predicate Resolvable(objs: set<Id>, id: Id)
  {
    id.EmptyId? || (id.DirId? && id in objs && ResolvableEntries(objs, id.entries))
  }

  predicate ResolvableEntries(objs: set<Id>, es: seq<Dirent>)
  {
    forall e :: e in es && e.isDir ==> Resolvable(objs, e.id)
  }

  predicate AllResolvable(objs: set<Id>, lists: seq<seq<Dirent>>) {
    forall i :: 0 <= i < |lists| ==> ResolvableEntries(objs, lists[i])
  }

  /** The directories among some entries are complete. */
  predicate GroupResolvable(objs: set<Id>, g: seq<Option<Dirent>>) {
    forall i :: 0 <= i < |g| && g[i].Some? && g[i].value.isDir ==> Resolvable(objs, g[i].value.id)
  }

  lemma {:induction false} MoreObjectsResolveMore(objs: set<Id>, objs': set<Id>, id: Id)
    requires objs <= objs' && Resolvable(objs, id)
    ensures Resolvable(objs', id)
    decreases id
  {
    if id.DirId? {
      forall e | e in id.entries && e.isDir ensures Resolvable(objs', e.id) {
        MoreObjectsResolveMore(objs, objs', e.id);
      }
    }
  }

  lemma MoreObjectsResolveMoreEntries(objs: set<Id>, objs': set<Id>, es: seq<Dirent>)
    requires objs <= objs' && ResolvableEntries(objs, es)
    ensures ResolvableEntries(objs', es)
  {
    forall e | e in es && e.isDir ensures Resolvable(objs', e.id) {
      MoreObjectsResolveMore(objs, objs', e.id);
    }
  }

  /** What loading an id yields. */
  function Load(objs: set<Id>, id: Id): Option<SeafDir> {
    if id.EmptyId? then Some(SeafDir(EmptyId, []))
    else if id.DirId? && id in objs then Some(SeafDir(id, id.entries))
    else None
  }

  /** The directories among some entries can be loaded. */
  predicate AllLoad(objs: set<Id>, g: seq<Option<Dirent>>) {
    forall i :: 0 <= i < |g| && g[i].Some? && g[i].value.isDir ==> Load(objs, g[i].value.id).Some?
  }

  /** The store has grown, and only by what can be written. */
  ghost predicate Grew(objs: set<Id>, objs': set<Id>, writable: Id -> bool) {
    objs <= objs' && forall id :: id in objs' && id !in objs ==> writable(id)
  }

  class ObjStore {
    var objs: set<Id>                 // the directory objects on disk
    const writable: Id -> bool        // false where writing that object fails

    constructor (objs: set<Id>, writable: Id -> bool)
      ensures this.objs == objs && this.writable == writable
    {
      this.objs := objs;
      this.writable := writable;
    }

    /** seaf_fs_manager_get_seafdir: the empty directory is never read from disk. */
    method GetSeafdir(id: Id) returns (dir: Option<SeafDir>)
      ensures dir == Load(objs, id)
      ensures dir.Some? ==> dir.value.dirId == id && dir.value.entries == Entries(id)
      ensures Resolvable(objs, id) ==> dir.Some? && ResolvableEntries(objs, Entries(id))
    {
      if id == EmptyId {
        return Some(SeafDir(id, []));
      }
      if !id.DirId? || id !in objs {
        return None;
      }
      return Some(SeafDir(id, id.entries));
    }

    /** seaf_dir_save: the empty directory and objects already present are not written. */
    method SaveDir(dir: SeafDir) returns (ok: bool)
      modifies this
      ensures ok <==> dir.dirId == EmptyId || dir.dirId in old(objs) || writable(dir.dirId)
      ensures objs == if dir.dirId == EmptyId || !ok then old(objs) else old(objs) + {dir.dirId}
    {
      if dir.dirId == EmptyId {
        return true;
      }
      if dir.dirId in objs {
        return true;
      }
      if !writable(dir.dirId) {
        return false;
      }
      objs := objs + {dir.dirId};
      return true;
    }
  }

  /** seaf_dir_new without a given id: the id is computed from the entries. */
  function NewDir(es: seq<Dirent>): SeafDir {
    SeafDir(DirIdOf(es), es)
  }
}
