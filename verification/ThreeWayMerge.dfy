/** The three-way merge as the code runs it: cursors over three sorted lists, conflict renames
    in place, a shared conflict flag and a shared register for the merged id. */
module ThreeWayMerge {
  import opened Names
  import opened FsObjects
  import opened DirJoin
  import opened MergeSpec
  import opened FsStore
  import opened MergeSuccess

  type ThreeRoots = r: seq<Id> | |r| == 3 witness [EmptyId, EmptyId, EmptyId]

  class MergeOptions {
    const env: Naming
    var conflict: bool
    var mergedTreeRoot: Id

    constructor (env: Naming)
      ensures this.env == env && !conflict
    {
      this.env := env;
      conflict := false;
      mergedTreeRoot := EmptyId;
    }
  }

  /** merge_entries: the files of one group.  Remote's entry may be renamed in place. */
  method MergeEntries(dents: array<Option<Dirent>>, basedir: string, dentsOut: seq<Dirent>, opt: MergeOptions)
    returns (ok: bool, out: seq<Dirent>)
    requires dents.Length == 3
    modifies dents, opt`conflict
    ensures ok == CanRename(opt.env, basedir, old(dents[..]))
    ensures ok ==> dents[..] == Renamed(opt.env, basedir, old(dents[..]))
    ensures ok ==> out == FileOut(dents[..]) + dentsOut
    ensures ok ==> opt.conflict == (old(opt.conflict) || ClashOf(old(dents[..])) != NoClash)
  {
    ok, out := true, dentsOut;
    var base, head, remote: Option<Dirent> := None, None, None;
    if IsFile(dents[0]) { base := dents[0]; }
    if IsFile(dents[1]) { head := dents[1]; }
    if IsFile(dents[2]) { remote := dents[2]; }

    if head.Some? && remote.Some? {
      if head.value.id == remote.value.id {
        out := [head.value] + out;
      } else if base.Some? && base.value.id == head.value.id {
        out := [remote.value] + out;
      } else if base.Some? && base.value.id == remote.value.id {
        out := [head.value] + out;
      } else {
        var conflictName := opt.env.file(basedir, head.value.name);
        if conflictName.None? { return false, out; }
        dents[2] := Some(remote.value.(name := conflictName.value));
        out := [head.value] + out;
        out := [dents[2].value] + out;
        opt.conflict := true;
      }
    } else if base.Some? && head.None? && remote.Some? {
      if base.value.id != remote.value.id {
        if dents[1] != None {
          var conflictName := opt.env.file(basedir, remote.value.name);
          if conflictName.None? { return false, out; }
          dents[2] := Some(remote.value.(name := conflictName.value));
          out := [dents[2].value] + out;
          opt.conflict := true;
        } else {
          out := [remote.value] + out;
        }
      }
    } else if base.Some? && head.Some? && remote.None? {
      if base.value.id != head.value.id {
        if dents[2] != None {
          var conflictName := opt.env.dir(dents[2].value.name);
          if conflictName.None? { return false, out; }
          dents[2] := Some(dents[2].value.(name := conflictName.value));
          out := [head.value] + out;
          opt.conflict := true;
        } else {
          out := [head.value] + out;
        }
      }
    } else if base.None? && head.None? && remote.Some? {
      if dents[1] == None {
        out := [remote.value] + out;
      } else if dents[0] != None && dents[0].value.id == dents[1].value.id {
        out := [remote.value] + out;
      } else {
        var conflictName := opt.env.file(basedir, remote.value.name);
        if conflictName.None? { return false, out; }
        dents[2] := Some(remote.value.(name := conflictName.value));
        out := [dents[2].value] + out;
        opt.conflict := true;
      }
    } else if base.None? && head.Some? && remote.None? {
      if dents[2] == None {
        out := [head.value] + out;
      } else if dents[0] != None && dents[0].value.id == dents[2].value.id {
        out := [head.value] + out;
      } else {
        var conflictName := opt.env.dir(dents[2].value.name);
        if conflictName.None? { return false, out; }
        dents[2] := Some(dents[2].value.(name := conflictName.value));
        out := [head.value] + out;
        opt.conflict := true;
      }
    }
  }

  predicate DirsConflict(g: Triple) {
    DirActionOf(g).Recurse? && MergeConflicts(SubTrees(g))
  }

  /** Loads the directories of a group; the name left over is the last directory's. */
  method LoadSubDirs(dents: array<Option<Dirent>>, store: ObjStore)
    returns (ok: bool, subDirs: Trees, dirname: Name)
    requires dents.Length == 3
    ensures ok <==> AllLoad(store.objs, dents[..])
    ensures ok ==> subDirs == SubDirs(dents[..]) && dirname == DirName(dents[..])
  {
    ghost var g: Triple := dents[..];
    subDirs, dirname := [None, None, None], "";
    for i := 0 to 3
      invariant forall k :: 0 <= k < 3 ==> subDirs[k] == if k < i then DirOf(g[k]) else None
      invariant forall k :: 0 <= k < i && IsDir(g[k]) ==> Load(store.objs, g[k].value.id).Some?
      invariant dirname == if i == 3 then DirName(g) else if i == 2 then DirName([g[0], g[1], None])
                           else if i == 1 then DirName([g[0], None, None]) else ""
    {
      if IsDir(dents[i]) {
        var dir := store.GetSeafdir(dents[i].value.id);
        if dir == None { return false, subDirs, dirname; }
        subDirs := subDirs[i := dir];
        dirname := dents[i].value.name;
      }
    }
    ok := true;
  }

  /** The cases that keep or drop directories whole; otherwise the merge must recurse. */
  method KeepOrDrop(dents: array<Option<Dirent>>, dirMask: int, dentsOut: seq<Dirent>)
    returns (done: bool, out: seq<Dirent>)
    requires dents.Length == 3 && dirMask == DirMask(dents[..]) && dirMask > 0
    ensures done == !DirActionOf(dents[..]).Recurse?
    ensures match DirActionOf(dents[..])
            case Drop => out == dentsOut
            case Take(k) => out == [dents[k].value] + dentsOut
            case Recurse(k) => out == dentsOut && k == if dirMask == 5 then 2 else 1
  {
    match dirMask {
      case 1 => return true, dentsOut;
      case 2 => return true, [dents[1].value] + dentsOut;
      case 3 => return dents[0].value.id == dents[1].value.id, dentsOut;
      case 4 => return true, [dents[2].value] + dentsOut;
      case 5 => return dents[0].value.id == dents[2].value.id, dentsOut;
      case _ =>
        if dents[1].value.id == dents[2].value.id {
          return true, [dents[1].value] + dentsOut;
        } else if dents[0] != None && dents[0].value.id == dents[1].value.id {
          return true, [dents[2].value] + dentsOut;
        } else if dents[0] != None && dents[0].value.id == dents[2].value.id {
          return true, [dents[1].value] + dentsOut;
        }
        return false, dentsOut;
    }
  }

  function DirMask(g: Triple): int {
    (if IsDir(g[0]) then 1 else 0) + (if IsDir(g[1]) then 2 else 0) + (if IsDir(g[2]) then 4 else 0)
  }

  /** merge_directories: the directories of one group, recursing where both sides matter. */
  method MergeDirectories(dents: array<Option<Dirent>>, basedir: string, dentsOut: seq<Dirent>,
                          opt: MergeOptions, store: ObjStore)
    returns (ok: bool, out: seq<Dirent>)
    requires dents.Length == 3
    requires IsDir(dents[0]) || IsDir(dents[1]) || IsDir(dents[2])
    modifies opt`conflict, opt`mergedTreeRoot, store
    ensures Grew(old(store.objs), store.objs, store.writable)
    ensures ok ==> out == DirOut(opt.env, dents[..], basedir) + dentsOut
    ensures ok ==> opt.conflict == (old(opt.conflict) || DirsConflict(dents[..]))
    ensures ok && GroupResolvable(old(store.objs), dents[..]) ==>
              ResolvableEntries(store.objs, DirOut(opt.env, dents[..], basedir))
    ensures DirsMergeable(MeansOf(opt.env, old(store.objs), store.writable), dents[..], basedir) ==> ok
    ensures ok ==> DirsMergeable(MeansAfter(opt.env, old(store.objs), store.objs, store.writable), dents[..], basedir)
    decreases GroupHeight(dents[..]), 0
  {
    ghost var g: Triple := dents[..];
    var dirMask := 0;
    if IsDir(dents[0]) { dirMask := dirMask + 1; }
    if IsDir(dents[1]) { dirMask := dirMask + 2; }
    if IsDir(dents[2]) { dirMask := dirMask + 4; }

    var done;
    done, out := KeepOrDrop(dents, dirMask, dentsOut);
    if done { return true, out; }

    var subDirs, dirname;
    ok, subDirs, dirname := LoadSubDirs(dents, store);
    if !ok { return; }
    SubTreesAreSmaller(g);
    if GroupResolvable(store.objs, g) { SubDirsOnDisk(store.objs, g); }

    ok := MergeTreesRecursive(subDirs, basedir + dirname + "/", opt, store);

    if dirMask == 5 {
      out := [dents[2].value.(id := opt.mergedTreeRoot)] + out;
    } else {
      out := [dents[1].value.(id := opt.mergedTreeRoot)] + out;
    }
  }

  /** Which kinds of entries a group has. */
  method CountKinds(dents: array<Option<Dirent>>) returns (nFiles: nat, nDirs: nat)
    requires dents.Length == 3
    ensures nFiles > 0 <==> IsFile(dents[0]) || IsFile(dents[1]) || IsFile(dents[2])
    ensures nDirs > 0 <==> IsDir(dents[0]) || IsDir(dents[1]) || IsDir(dents[2])
  {
    nFiles, nDirs := 0, 0;
    for i := 0 to 3
      invariant nFiles > 0 <==> exists k :: 0 <= k < i && IsFile(dents[k])
      invariant nDirs > 0 <==> exists k :: 0 <= k < i && IsDir(dents[k])
    {
      if IsFile(dents[i]) {
        nFiles := nFiles + 1;
      } else if IsDir(dents[i]) {
        nDirs := nDirs + 1;
      }
    }
  }

  /** Where a level stands once only the groups `rest` are left: what is still to come, put in
      front of what is merged, is the whole level, and likewise for the conflict flag. */
  ghost predicate LevelSoFar(env: Naming, basedir: string, whole: seq<Dirent>, flag: bool,
                             rest: seq<Dents>, merged: seq<Dirent>, conflict: bool)
  {
    && AllTriples(rest)
    && whole == MergeGroups(env, rest, basedir) + merged
    && (flag <==> conflict || GroupsConflict(rest))
  }

  lemma GroupsCons(env: Naming, g: Triple, gs: seq<Dents>, basedir: string)
    requires AllTriples(gs)
    ensures AllTriples([g] + gs)
    ensures MergeGroups(env, [g] + gs, basedir) == MergeGroups(env, gs, basedir) + MergeGroup(env, g, basedir)
    ensures GroupsConflict([g] + gs) <==> GroupConflicts(g) || GroupsConflict(gs)
  {
  }

  lemma Regroup(front: seq<Dirent>, back: seq<Dirent>, merged: seq<Dirent>)
    ensures (front + back) + merged == front + (back + merged)
  {
  }

  lemma LevelStep(env: Naming, basedir: string, whole: seq<Dirent>, flag: bool, g: Triple, gs: seq<Dents>,
                  merged: seq<Dirent>, conflict: bool)
    requires AllTriples(gs) && LevelSoFar(env, basedir, whole, flag, [g] + gs, merged, conflict)
    ensures LevelSoFar(env, basedir, whole, flag, gs, MergeGroup(env, g, basedir) + merged,
                       conflict || GroupConflicts(g))
  {
    GroupsCons(env, g, gs, basedir);
    Regroup(MergeGroups(env, gs, basedir), MergeGroup(env, g, basedir), merged);
  }

  lemma LevelDone(env: Naming, basedir: string, whole: seq<Dirent>, flag: bool, merged: seq<Dirent>, conflict: bool)
    requires LevelSoFar(env, basedir, whole, flag, [], merged, conflict)
    ensures merged == whole && conflict == flag
  {
  }

  lemma NextGroup(ptrs: Lists, name: Name)
    requires |ptrs| == 3 && FirstName(ptrs) == Some(name)
    ensures Groups(ptrs) == [Pick(ptrs, name)] + Groups(Advance(ptrs, name))
    ensures TotalLength(Advance(ptrs, name)) < TotalLength(ptrs)
  {
    AdvanceShrinks(ptrs);
  }

  lemma FilesResolve(objs: set<Id>, g: Triple)
    ensures ResolvableEntries(objs, FileOut(g))
  {
  }

  lemma RenamingKeepsIds(env: Naming, basedir: string, objs: set<Id>, g: Triple)
    ensures var g' := Renamed(env, basedir, g);
      && GroupHeight(g') == GroupHeight(g)
      && (GroupResolvable(objs, g) <==> GroupResolvable(objs, g'))
      && SubTrees(g') == SubTrees(g)
      && DirActionOf(g') == DirActionOf(g)
  {
    RenamingKeepsHeight(env, basedir, g);
    RenamingKeepsDirs(env, basedir, objs, g);
  }

  /** Groups without files, or without directories, contribute nothing of that kind. */
  lemma MissingKinds(env: Naming, basedir: string, g: Triple)
    ensures !(IsFile(g[0]) || IsFile(g[1]) || IsFile(g[2])) ==>
              ClashOf(g) == NoClash && Renamed(env, basedir, g) == g && FileOut(g) == []
    ensures !(IsDir(g[0]) || IsDir(g[1]) || IsDir(g[2])) ==> DirOut(env, g, basedir) == [] && !DirsConflict(g)
  {
  }

  lemma JoinParts(objs: set<Id>, dirs: seq<Dirent>, files: seq<Dirent>, merged: seq<Dirent>)
    ensures dirs + (files + merged) == (dirs + files) + merged
    ensures ResolvableEntries(objs, dirs) && ResolvableEntries(objs, files) ==> ResolvableEntries(objs, dirs + files)
  {
  }

  /** The entries of one name: first its files, then its directories. */
  method MergeOneGroup(dents: array<Option<Dirent>>, basedir: string, merged: seq<Dirent>,
                       opt: MergeOptions, store: ObjStore)
    returns (ok: bool, out: seq<Dirent>)
    requires dents.Length == 3
    modifies dents, opt`conflict, opt`mergedTreeRoot, store
    ensures Grew(old(store.objs), store.objs, store.writable)
    ensures ok ==> out == MergeGroup(opt.env, old(dents[..]), basedir) + merged
    ensures ok ==> opt.conflict == (old(opt.conflict) || GroupConflicts(old(dents[..])))
    ensures ok && GroupResolvable(old(store.objs), old(dents[..])) ==>
              ResolvableEntries(store.objs, MergeGroup(opt.env, old(dents[..]), basedir))
    ensures GroupMergeable(MeansOf(opt.env, old(store.objs), store.writable), old(dents[..]), basedir) ==> ok
    ensures ok ==> GroupMergeable(MeansAfter(opt.env, old(store.objs), store.objs, store.writable), old(dents[..]), basedir)
    decreases GroupHeight(dents[..]), 1
  {
    ghost var g: Triple := dents[..];
    ghost var g' := Renamed(opt.env, basedir, g);
    RenamingKeepsIds(opt.env, basedir, store.objs, g);
    MissingKinds(opt.env, basedir, g);
    MissingKinds(opt.env, basedir, g');
    var nFiles, nDirs := CountKinds(dents);
    ok, out := true, merged;
    if nFiles > 0 {
      ok, out := MergeEntries(dents, basedir, out, opt);
      if !ok { return; }
    }
    assert dents[..] == g';
    assert out == FileOut(g') + merged;
    if nDirs > 0 {
      ok, out := MergeDirectories(dents, basedir, out, opt, store);
      if !ok { return; }
    }
    FilesResolve(store.objs, g');
    JoinParts(store.objs, DirOut(opt.env, g', basedir), FileOut(g'), merged);
  }

  /** The end of a level: sort, publish the id, save unless head or remote already is it. */
  method FinishLevel(trees: Trees, dents: seq<Dirent>, opt: MergeOptions, store: ObjStore)
    returns (ok: bool)
    requires Loaded(trees)
    modifies opt`mergedTreeRoot, store
    ensures Grew(old(store.objs), store.objs, store.writable)
    ensures opt.mergedTreeRoot == DirIdOf(SortDescending(dents))
    ensures ok && OnDisk(old(store.objs), trees) && ResolvableEntries(old(store.objs), dents) ==>
              Resolvable(store.objs, opt.mergedTreeRoot)
    ensures ok <==> CanPublish(MeansOf(opt.env, old(store.objs), store.writable), trees, opt.mergedTreeRoot)
  {
    var merged := SortDescending(dents);
    var mergedTree := NewDir(merged);
    opt.mergedTreeRoot := mergedTree.dirId;
    if (trees[1].Some? && trees[1].value.dirId == mergedTree.dirId)
       || (trees[2].Some? && trees[2].value.dirId == mergedTree.dirId) {
      ok := true;
    } else {
      ok := store.SaveDir(mergedTree);
    }
    if OnDisk(old(store.objs), trees) && ResolvableEntries(old(store.objs), dents) {
      SortedResolves(old(store.objs), dents);
      MoreObjectsResolveMoreEntries(old(store.objs), store.objs, merged);
      StillOnDisk(old(store.objs), store.objs, trees);
    }
  }

  lemma SortedResolves(objs: set<Id>, es: seq<Dirent>)
    requires ResolvableEntries(objs, es)
    ensures ResolvableEntries(objs, SortDescending(es))
  {
    forall e | e in SortDescending(es) && e.isDir ensures Resolvable(objs, e.id) {
      SortKeepsMembers(es, e);
    }
  }

  /** A level of the merge: what it works with, and how things stood when it began. */
  datatype Level = Level(env: Naming, basedir: string, writable: Id -> bool, objs: set<Id>, lists: ThreeLists,
                         conflict: bool)

  /** Where the walk of a level stands: the groups `done` are merged, with what is stored by now, and
      `rest` is to come. */
  ghost predicate Walked(l: Level, objs: set<Id>, done: seq<Dents>, rest: seq<Dents>) {
    && Groups(l.lists) == done + rest && AllTriples(Groups(l.lists))
    && Grew(l.objs, objs, l.writable)
    && AllMergeable(MeansAfter(l.env, l.objs, objs, l.writable), done, l.basedir)
  }

  ghost predicate LevelInv(l: Level, objs: set<Id>, done: seq<Dents>, rest: seq<Dents>, merged: seq<Dirent>,
                           conflict: bool)
  {
    && Walked(l, objs, done, rest)
    && LevelSoFar(l.env, l.basedir, MergeGroups(l.env, Groups(l.lists), l.basedir),
                  l.conflict || GroupsConflict(Groups(l.lists)), rest, merged, conflict)
    && (AllResolvable(l.objs, l.lists) ==> ResolvableEntries(objs, merged))
  }

  lemma LevelBegins(l: Level)
    ensures LevelInv(l, l.objs, [], Groups(l.lists), [], l.conflict)
  {
    GroupsHeightWithin(l.lists);
    assert [] + Groups(l.lists) == Groups(l.lists);
    assert MergeGroups(l.env, Groups(l.lists), l.basedir) + [] == MergeGroups(l.env, Groups(l.lists), l.basedir);
  }

  /** What is known about the next group. */
  lemma NextInLevel(l: Level, objs: set<Id>, done: seq<Dents>, g: Triple, rest: seq<Dents>)
    requires Walked(l, objs, done, [g] + rest)
    ensures AllTriples(rest) && GroupHeight(g) <= TreesHeight(l.lists)
    ensures AllResolvable(l.objs, l.lists) ==> GroupResolvable(objs, g)
    ensures AllMergeable(MeansOf(l.env, l.objs, l.writable), Groups(l.lists), l.basedir) ==>
              GroupMergeable(MeansOf(l.env, objs, l.writable), g, l.basedir)
  {
    assert g in [g] + rest && forall d :: d in rest ==> d in [g] + rest;
    GroupHeightWithin(l.lists, g);
    if AllResolvable(l.objs, l.lists) {
      GroupStillResolves(l.objs, objs, l.lists, g);
    }
    if AllMergeable(MeansOf(l.env, l.objs, l.writable), Groups(l.lists), l.basedir) {
      GroupStaysMergeable(l.env, l.objs, objs, l.writable, g, l.basedir);
    }
  }

  lemma WalkOn(l: Level, objs: set<Id>, objs': set<Id>, done: seq<Dents>, g: Triple, rest: seq<Dents>)
    requires Walked(l, objs, done, [g] + rest) && Grew(objs, objs', l.writable)
    requires GroupMergeable(MeansAfter(l.env, objs, objs', l.writable), g, l.basedir)
    ensures Walked(l, objs', done + [g], rest)
  {
    OneMoreMergeable(l.env, l.objs, objs, objs', l.writable, done, g, l.basedir);
    assert done + ([g] + rest) == (done + [g]) + rest;
  }

  lemma LevelGoesOn(l: Level, objs: set<Id>, objs': set<Id>, done: seq<Dents>, g: Triple, rest: seq<Dents>,
                    merged: seq<Dirent>, conflict: bool)
    requires LevelInv(l, objs, done, [g] + rest, merged, conflict) && Grew(objs, objs', l.writable)
    requires GroupMergeable(MeansAfter(l.env, objs, objs', l.writable), g, l.basedir)
    requires GroupResolvable(objs, g) ==> ResolvableEntries(objs', MergeGroup(l.env, g, l.basedir))
    ensures LevelInv(l, objs', done + [g], rest, MergeGroup(l.env, g, l.basedir) + merged, conflict || GroupConflicts(g))
  {
    NextInLevel(l, objs, done, g, rest);
    WalkOn(l, objs, objs', done, g, rest);
    LevelStep(l.env, l.basedir, MergeGroups(l.env, Groups(l.lists), l.basedir),
              l.conflict || GroupsConflict(Groups(l.lists)), g, rest, merged, conflict);
    if AllResolvable(l.objs, l.lists) {
      MoreObjectsResolveMoreEntries(objs, objs', merged);
    }
  }

  lemma LevelEnds(l: Level, objs: set<Id>, done: seq<Dents>, merged: seq<Dirent>, conflict: bool)
    requires LevelInv(l, objs, done, [], merged, conflict)
    ensures AllTriples(Groups(l.lists)) && Grew(l.objs, objs, l.writable)
    ensures merged == MergeGroups(l.env, Groups(l.lists), l.basedir)
    ensures conflict == (l.conflict || GroupsConflict(Groups(l.lists)))
    ensures AllResolvable(l.objs, l.lists) ==> ResolvableEntries(objs, merged)
    ensures AllMergeable(MeansAfter(l.env, l.objs, objs, l.writable), Groups(l.lists), l.basedir)
  {
    LevelDone(l.env, l.basedir, MergeGroups(l.env, Groups(l.lists), l.basedir),
              l.conflict || GroupsConflict(Groups(l.lists)), merged, conflict);
    assert done + [] == done;
  }

  lemma OnlyGrew(objs: set<Id>, objs1: set<Id>, objs2: set<Id>, writable: Id -> bool)
    requires Grew(objs, objs1, writable) && Grew(objs1, objs2, writable)
    ensures Grew(objs, objs2, writable)
  {
  }

  /** The walk of one level, group by group. */
  method MergeLevel(ptrs: array<seq<Dirent>>, basedir: string, opt: MergeOptions, store: ObjStore)
    returns (ok: bool, merged: seq<Dirent>)
    requires ptrs.Length == 3
    modifies ptrs, opt`conflict, opt`mergedTreeRoot, store
    ensures AllTriples(Groups(old(ptrs[..])))
    ensures Grew(old(store.objs), store.objs, store.writable)
    ensures ok ==> merged == MergeGroups(opt.env, Groups(old(ptrs[..])), basedir)
    ensures ok ==> opt.conflict == (old(opt.conflict) || GroupsConflict(Groups(old(ptrs[..]))))
    ensures ok && AllResolvable(old(store.objs), old(ptrs[..])) ==> ResolvableEntries(store.objs, merged)
    ensures AllMergeable(MeansOf(opt.env, old(store.objs), store.writable), Groups(old(ptrs[..])), basedir) ==> ok
    ensures ok ==> AllMergeable(MeansAfter(opt.env, old(store.objs), store.objs, store.writable),
                                Groups(old(ptrs[..])), basedir)
    decreases TreesHeight(ptrs[..]), 2
  {
    ghost var l := Level(opt.env, basedir, store.writable, store.objs, ptrs[..], opt.conflict);
    ghost var done: seq<Dents> := [];
    LevelBegins(l);
    var dents := new Option<Dirent>[3](_ => None);
    merged := [];

    while true
      invariant LevelInv(l, store.objs, done, Groups(ptrs[..]), merged, opt.conflict)
      decreases TotalLength(ptrs[..])
    {
      var firstName := LargestFront(ptrs);
      if firstName == None { break; }
      NextGroup(ptrs[..], firstName.value);
      TakeGroup(ptrs, dents, firstName.value);
      ghost var g, rest, objs, before, conflict := dents[..], Groups(ptrs[..]), store.objs, merged, opt.conflict;
      NextInLevel(l, objs, done, g, rest);
      ok, merged := MergeOneGroup(dents, basedir, merged, opt, store);
      OnlyGrew(l.objs, objs, store.objs, store.writable);
      if !ok { return; }
      LevelGoesOn(l, objs, store.objs, done, g, rest, before, conflict);
      done := done + [g];
    }
    LevelEnds(l, store.objs, done, merged, opt.conflict);
    ok := true;
  }

  /** merge_trees_recursive: one level of the merge.  On success the register holds the id of
      this level's result, whatever the recursive calls left in it. */
  method MergeTreesRecursive(trees: Trees, basedir: string, opt: MergeOptions, store: ObjStore)
    returns (ok: bool)
    requires Loaded(trees)
    modifies opt`conflict, opt`mergedTreeRoot, store
    ensures Grew(old(store.objs), store.objs, store.writable)
    ensures ok ==> opt.mergedTreeRoot == DirIdOf(MergeTrees(opt.env, TreeEntries(trees), basedir))
    ensures ok ==> opt.conflict == (old(opt.conflict) || MergeConflicts(TreeEntries(trees)))
    ensures ok && OnDisk(old(store.objs), trees) ==> Resolvable(store.objs, opt.mergedTreeRoot)
    ensures TreesMergeable(MeansOf(opt.env, old(store.objs), store.writable), trees, basedir) ==> ok
    ensures ok ==> TreesMergeable(MeansAfter(opt.env, old(store.objs), store.objs, store.writable), trees, basedir)
    decreases TreesHeight(TreeEntries(trees)), 3
  {
    ghost var objs0 := store.objs;
    ghost var onDisk := OnDisk(objs0, trees);
    if onDisk { OnDiskResolves(objs0, trees); }
    var ptrs := new seq<Dirent>[3](i requires 0 <= i < 3 => if trees[i].Some? then trees[i].value.entries else []);
    assert ptrs[..] == TreeEntries(trees);
    var merged;
    ok, merged := MergeLevel(ptrs, basedir, opt, store);
    if !ok { return; }
    ghost var objs1 := store.objs;
    if onDisk { StillOnDisk(objs0, objs1, trees); }
    ok := FinishLevel(trees, merged, opt, store);
    FinishesLevel(opt.env, objs0, objs1, store.objs, store.writable, trees, basedir);
  }

  /** With all groups merged, all that is left is whether the id of the level can be published. */
  lemma FinishesLevel(env: Naming, objs0: set<Id>, objs1: set<Id>, objs2: set<Id>, writable: Id -> bool,
                      trees: Trees, basedir: string)
    requires Grew(objs0, objs1, writable) && Grew(objs1, objs2, writable)
    requires AllTriples(Groups(TreeEntries(trees)))
    requires AllMergeable(MeansAfter(env, objs0, objs1, writable), Groups(TreeEntries(trees)), basedir)
    ensures Grew(objs0, objs2, writable)
    ensures var id := DirIdOf(MergeTrees(env, TreeEntries(trees), basedir));
      var can := CanPublish(MeansOf(env, objs1, writable), trees, id);
      && (TreesMergeable(MeansOf(env, objs0, writable), trees, basedir) ==> can)
      && (can ==> TreesMergeable(MeansAfter(env, objs0, objs2, writable), trees, basedir))
  {
    SavableStays(objs0, objs1, writable);
    var m, m' := MeansAfter(env, objs0, objs1, writable), MeansAfter(env, objs0, objs2, writable);
    forall g | g in Groups(TreeEntries(trees)) ensures GroupMergeable(m', g, basedir) {
      MoreGroupsMergeable(m, m', g, basedir);
    }
  }

  lemma StillOnDisk(objs: set<Id>, objs': set<Id>, trees: Trees)
    requires objs <= objs' && OnDisk(objs, trees)
    ensures OnDisk(objs', trees)
  {
    forall i | 0 <= i < 3 && trees[i].Some? ensures Resolvable(objs', trees[i].value.dirId) {
      MoreObjectsResolveMore(objs, objs', trees[i].value.dirId);
    }
  }

  lemma GroupStillResolves(objs: set<Id>, objs': set<Id>, lists: Lists, g: Dents)
    requires |lists| == 3 && g in Groups(lists) && AllResolvable(objs, lists) && objs <= objs'
    ensures |g| == 3 && GroupResolvable(objs', g)
  {
    GroupsHoldMembers(lists, g);
    forall i | 0 <= i < 3 && IsDir(g[i]) ensures Resolvable(objs', g[i].value.id) {
      assert Resolvable(objs, g[i].value.id);
      MoreObjectsResolveMore(objs, objs', g[i].value.id);
    }
  }

  method LoadRoots(roots: ThreeRoots, store: ObjStore) returns (ok: bool, trees: Trees)
    ensures ok <==> forall i :: 0 <= i < 3 ==> Load(store.objs, roots[i]).Some?
    ensures ok ==> trees == RootDirs(roots)
  {
    trees := [None, None, None];
    for i := 0 to 3
      invariant forall k :: 0 <= k < i ==> Load(store.objs, roots[k]).Some? && trees[k] == RootDirs(roots)[k]
    {
      var root := store.GetSeafdir(roots[i]);
      if root == None { return false, trees; }
      trees := trees[i := root];
    }
    ok := true;
  }

  /** The three trees are complete on disk. */
  predicate RootsResolvable(objs: set<Id>, roots: ThreeRoots) {
    forall i :: 0 <= i < 3 ==> Resolvable(objs, roots[i])
  }

  lemma RootsOnDisk(objs: set<Id>, roots: ThreeRoots)
    ensures TreeEntries(RootDirs(roots)) == RootLists(roots) && Loaded(RootDirs(roots))
    ensures RootsResolvable(objs, roots) ==>
              OnDisk(objs, RootDirs(roots)) && forall i :: 0 <= i < 3 ==> Load(objs, roots[i]).Some?
  {
  }

  /** seaf_merge_trees: load the three roots and merge them.  With the three trees complete on
      disk the merged tree is complete on disk, although unchanged results are never written.
      The merge succeeds if the roots are mergeable with what is stored before, and only if they are
      with what is stored after it, which on complete trees is the same. */
  method SeafMergeTrees(roots: ThreeRoots, opt: MergeOptions, store: ObjStore) returns (ok: bool)
    modifies opt`conflict, opt`mergedTreeRoot, store
    ensures Grew(old(store.objs), store.objs, store.writable)
    ensures ok ==> opt.mergedTreeRoot == DirIdOf(MergeTrees(opt.env, RootLists(roots), ""))
    ensures ok ==> opt.conflict == (old(opt.conflict) || MergeConflicts(RootLists(roots)))
    ensures ok && RootsResolvable(old(store.objs), roots) ==> Resolvable(store.objs, opt.mergedTreeRoot)
    ensures RootsMergeable(MeansOf(opt.env, old(store.objs), store.writable), roots) ==> ok
    ensures ok ==> RootsMergeable(MeansAfter(opt.env, old(store.objs), store.objs, store.writable), roots)
    ensures RootsResolvable(old(store.objs), roots) ==>
              (ok <==> RootsMergeable(MeansOf(opt.env, old(store.objs), store.writable), roots))
  {
    ghost var objs0 := store.objs;
    RootsOnDisk(objs0, roots);
    var trees;
    ok, trees := LoadRoots(roots, store);
    if !ok { return; }
    ok := MergeTreesRecursive(trees, "", opt, store);
    ghost var m, m' := MeansOf(opt.env, objs0, store.writable), MeansAfter(opt.env, objs0, store.objs, store.writable);
    if ok && RootsResolvable(objs0, roots) {
      CompleteTreesMergeable(m', m, trees, "");
    }
  }

  /** Complete trees can be merged where no name is missing and no write fails. */
  lemma CompleteRootsMerge(env: Naming, objs: set<Id>, writable: Id -> bool, roots: ThreeRoots)
    requires RootsResolvable(objs, roots) && NothingFails(MeansOf(env, objs, writable))
    ensures RootsMergeable(MeansOf(env, objs, writable), roots)
  {
    var m := MeansOf(env, objs, writable);
    RootsOnDisk(objs, roots);
    CompleteTreesMergeable(m, m, RootDirs(roots), "");
  }

  function RootLists(roots: ThreeRoots): Lists
  {
    [Entries(roots[0]), Entries(roots[1]), Entries(roots[2])]
  }
}
