/** The tree diff on a store where directories may be missing: it stops at the first directory it
    needs and cannot load, and keeps what it has reported so far. */
module DiffReading {
  import opened Names
  import opened FsObjects
  import opened DirJoin
  import opened DiffSpec
  import opened FsStore

  // ---- what must be readable ----

  /** The directories the diff visits can be loaded: those it descends into, and below them the
      same.  Equal entries and folded directories are never visited. */
  predicate Readable(objs: set<Id>, trees: TwoLists, fold: bool)
    decreases TreesHeight(trees), 2, 0
  {
    GroupsHeightWithin(trees);
    GroupsReadable(objs, Groups(trees), fold)
  }

  predicate GroupsReadable(objs: set<Id>, gs: seq<Pair>, fold: bool)
    decreases GroupsHeight(gs), 1, |gs|
  {
    gs == [] || (GroupReadable(objs, gs[0], fold) && GroupsReadable(objs, gs[1..], fold))
  }

  predicate GroupReadable(objs: set<Id>, g: Pair, fold: bool)
    decreases GroupHeight(g), 0, 0
  {
    Unchanged(g) || !Descends(g, fold) ||
    (AllLoad(objs, g) &&
     (assert HasDir(g) by { assert IsDir(g[0]) || IsDir(g[1]); }
      SubTreesAreSmaller(g);
      Readable(objs, SubTrees(g), fold)))
  }

  // ---- what is reported ----

  /** Whether the diff got to its end, and the entries reported up to there, latest first. */
  datatype Reading = Reading(ok: bool, entries: seq<DiffEntry>)

  function ReadTrees(objs: set<Id>, trees: TwoLists, basedir: Path, fold: bool): Reading
    decreases TreesHeight(trees), 2, 0
  {
    GroupsHeightWithin(trees);
    ReadGroups(objs, Groups(trees), basedir, fold)
  }

  function ReadGroups(objs: set<Id>, gs: seq<Pair>, basedir: Path, fold: bool): Reading
    decreases GroupsHeight(gs), 1, |gs|
  {
    if gs == [] then Reading(true, [])
    else
      var first := ReadGroup(objs, gs[0], basedir, fold);
      if !first.ok then first
      else
        var rest := ReadGroups(objs, gs[1..], basedir, fold);
        Reading(rest.ok, rest.entries + first.entries)
  }

  function ReadGroup(objs: set<Id>, g: Pair, basedir: Path, fold: bool): Reading
    decreases GroupHeight(g), 0, 1
  {
    if Unchanged(g) then Reading(true, [])
    else
      var dirs := ReadDirs(objs, g, basedir, fold);
      Reading(dirs.ok, dirs.entries + FileDiff(FileOf(g[0]), FileOf(g[1]), basedir + [GroupName(g)]))
  }

  function ReadDirs(objs: set<Id>, g: Pair, basedir: Path, fold: bool): Reading
    decreases GroupHeight(g), 0, 0
  {
    var path := basedir + [GroupName(g)];
    var mark := DirMark(g, path, fold);
    if !Descends(g, fold) then Reading(true, mark)
    else if !AllLoad(objs, g) then Reading(false, mark)
    else
      assert HasDir(g) by { assert IsDir(g[0]) || IsDir(g[1]); }
      SubTreesAreSmaller(g);
      var sub := ReadTrees(objs, SubTrees(g), path, fold);
      Reading(sub.ok, sub.entries + mark)
  }

  // ---- the two agree ----

  /** What a failed diff reports is the end of the full diff's list; the front is missing. */
  ghost predicate Tail(whole: seq<DiffEntry>, part: seq<DiffEntry>) {
    |part| <= |whole| && whole[|whole| - |part|..] == part
  }

  /** The diff gets to its end exactly when what it visits is readable; then it reports the whole
      diff, and otherwise the end of it. */
  ghost predicate Reads(r: Reading, readable: bool, whole: seq<DiffEntry>) {
    (r.ok <==> readable) && (r.ok ==> r.entries == whole) && Tail(whole, r.entries)
  }

  lemma BothRead(r1: Reading, readable1: bool, whole1: seq<DiffEntry>,
                 r2: Reading, readable2: bool, whole2: seq<DiffEntry>)
    requires Reads(r1, readable1, whole1) && Reads(r2, readable2, whole2)
    ensures Reads(if r1.ok then Reading(r2.ok, r2.entries + r1.entries) else r1,
                  readable1 && readable2, whole2 + whole1)
  {
  }

  lemma {:induction false} ReadingTrees(objs: set<Id>, trees: TwoLists, basedir: Path, fold: bool)
    ensures Reads(ReadTrees(objs, trees, basedir, fold), Readable(objs, trees, fold), DiffTrees(trees, basedir, fold))
    decreases TreesHeight(trees), 2, 0
  {
    GroupsHeightWithin(trees);
    ReadingGroups(objs, Groups(trees), basedir, fold);
  }

  lemma {:induction false} ReadingGroups(objs: set<Id>, gs: seq<Pair>, basedir: Path, fold: bool)
    ensures Reads(ReadGroups(objs, gs, basedir, fold), GroupsReadable(objs, gs, fold), DiffGroups(gs, basedir, fold))
    decreases GroupsHeight(gs), 1, |gs|
  {
    if gs != [] {
      ReadingGroup(objs, gs[0], basedir, fold);
      ReadingGroups(objs, gs[1..], basedir, fold);
      BothRead(ReadGroup(objs, gs[0], basedir, fold), GroupReadable(objs, gs[0], fold), DiffGroup(gs[0], basedir, fold),
               ReadGroups(objs, gs[1..], basedir, fold), GroupsReadable(objs, gs[1..], fold),
               DiffGroups(gs[1..], basedir, fold));
    }
  }

  lemma {:induction false} ReadingGroup(objs: set<Id>, g: Pair, basedir: Path, fold: bool)
    ensures Reads(ReadGroup(objs, g, basedir, fold), GroupReadable(objs, g, fold), DiffGroup(g, basedir, fold))
    decreases GroupHeight(g), 0, 1
  {
    if !Unchanged(g) {
      ReadingDirs(objs, g, basedir, fold);
      var files := FileDiff(FileOf(g[0]), FileOf(g[1]), basedir + [GroupName(g)]);
      BothRead(Reading(true, files), true, files,
               ReadDirs(objs, g, basedir, fold), GroupReadable(objs, g, fold), DirDiff(g, basedir, fold));
    }
  }

  lemma {:induction false} ReadingDirs(objs: set<Id>, g: Pair, basedir: Path, fold: bool)
    requires !Unchanged(g)
    ensures Reads(ReadDirs(objs, g, basedir, fold), GroupReadable(objs, g, fold), DirDiff(g, basedir, fold))
    decreases GroupHeight(g), 0, 0
  {
    var path := basedir + [GroupName(g)];
    var mark := DirMark(g, path, fold);
    if Descends(g, fold) {
      assert HasDir(g) by { assert IsDir(g[0]) || IsDir(g[1]); }
      SubTreesAreSmaller(g);
      if AllLoad(objs, g) {
        ReadingTrees(objs, SubTrees(g), path, fold);
        BothRead(Reading(true, mark), true, mark,
                 ReadTrees(objs, SubTrees(g), path, fold), Readable(objs, SubTrees(g), fold),
                 DiffTrees(SubTrees(g), path, fold));
      }
    } else {
      assert DirDiff(g, basedir, fold) == [] + mark == mark;
    }
  }

  // ---- complete trees ----

  /** Trees that are stored completely are readable. */
  lemma {:induction false} CompleteIsReadable(objs: set<Id>, trees: TwoLists, fold: bool)
    requires AllResolvable(objs, trees)
    ensures Readable(objs, trees, fold)
    decreases TreesHeight(trees), 2, 0
  {
    GroupsHeightWithin(trees);
    forall g | g in Groups(trees)
      ensures |g| == 2 && GroupResolvable(objs, g)
    {
      GroupsHoldMembers(trees, g);
    }
    CompleteGroupsAreReadable(objs, Groups(trees), fold);
  }

  lemma {:induction false} CompleteGroupsAreReadable(objs: set<Id>, gs: seq<Pair>, fold: bool)
    requires forall g :: g in gs ==> GroupResolvable(objs, g)
    ensures GroupsReadable(objs, gs, fold)
    decreases GroupsHeight(gs), 1, |gs|
  {
    if gs != [] {
      CompleteGroupsAreReadable(objs, gs[1..], fold);
      var g: Pair := gs[0];
      assert GroupResolvable(objs, g);
      if Descends(g, fold) {
        assert HasDir(g) by { assert IsDir(g[0]) || IsDir(g[1]); }
        SubTreesAreSmaller(g);
        CompleteIsReadable(objs, SubTrees(g), fold);
      }
    }
  }
}
