/** The rename pass over a diff: pairs deletions with additions of the same content. */
module RenameResolve {
  import opened Names
  import opened FsObjects
  import opened DiffSpec

  /** A link of the result list.  Links are told apart by identity, not by their entry. */
  class Link {
    const data: DiffEntry

    constructor (data: DiffEntry)
      ensures this.data == data
    {
      this.data := data;
    }
  }

  type Fact = (Status, Path, Id)

  /** What an entry says: a rename says a deletion and an addition of one content. */
  function Meaning(e: DiffEntry): multiset<Fact> {
    match e.status
    case Renamed => multiset{(Deleted, e.path, e.id), (Added, e.newPath, e.id)}
    case DirRenamed => multiset{(DirDeleted, e.path, e.id), (DirAdded, e.newPath, e.id)}
    case _ => multiset{(e.status, e.path, e.id)}
  }

  function MeaningAll(list: seq<Link>): multiset<Fact> {
    if list == [] then multiset{} else Meaning(list[0].data) + MeaningAll(list[1..])
  }

  predicate Is(l: Link, status: Status, id: Id) {
    l.data.status == status && l.data.id == id
  }

  /** How many links carry that status and content. */
  function Count(list: seq<Link>, status: Status, id: Id): nat {
    if list == [] then 0 else (if Is(list[0], status, id) then 1 else 0) + Count(list[1..], status, id)
  }

  function RenameCount(list: seq<Link>): nat {
    if list == [] then 0
    else (if list[0].data.status in {Renamed, DirRenamed} then 1 else 0) + RenameCount(list[1..])
  }

  predicate Distinct(list: seq<Link>) {
    forall i, j :: 0 <= i < j < |list| ==> list[i] != list[j]
  }

  lemma PrependDistinct(l: Link, list: seq<Link>)
    requires Distinct(list) && l !in list
    ensures Distinct([l] + list)
  {
  }

  /** g_list_delete_link */
  function Remove(list: seq<Link>, l: Link): (r: seq<Link>)
    ensures forall x :: x in r ==> x in list
  {
    if list == [] then []
    else if list[0] == l then list[1..]
    else [list[0]] + Remove(list[1..], l)
  }

  lemma {:induction false} RemoveOne(list: seq<Link>, l: Link)
    requires Distinct(list) && l in list
    ensures Distinct(Remove(list, l))
    ensures forall x :: x in Remove(list, l) <==> x in list && x != l
    ensures |Remove(list, l)| == |list| - 1
  {
    if list[0] != l {
      RemoveOne(list[1..], l);
      PrependDistinct(list[0], Remove(list[1..], l));
    }
  }

  lemma {:induction false} RemoveMeaning(list: seq<Link>, l: Link)
    requires l in list
    ensures MeaningAll(list) == MeaningAll(Remove(list, l)) + Meaning(l.data)
  {
    if list[0] != l {
      RemoveMeaning(list[1..], l);
      assert Remove(list, l)[1..] == Remove(list[1..], l);
    }
  }

  lemma {:induction false} RemoveCounts(list: seq<Link>, l: Link)
    requires l in list
    ensures RenameCount(list) == RenameCount(Remove(list, l)) + (if l.data.status in {Renamed, DirRenamed} then 1 else 0)
    ensures forall status, id ::
              Count(list, status, id) == Count(Remove(list, l), status, id) + (if Is(l, status, id) then 1 else 0)
  {
    if list[0] != l {
      RemoveCounts(list[1..], l);
      assert Remove(list, l)[1..] == Remove(list[1..], l);
    }
  }

  lemma {:induction false} CountHasMember(list: seq<Link>, status: Status, id: Id)
    ensures Count(list, status, id) > 0 <==> exists l :: l in list && Is(l, status, id)
  {
    if list != [] {
      CountHasMember(list[1..], status, id);
      if l :| l in list && Is(l, status, id) {
        assert l == list[0] || l in list[1..];
      }
      if Count(list[1..], status, id) > 0 {
        var l :| l in list[1..] && Is(l, status, id);
        assert l in list;
      }
    }
  }

  /** Empty contents are matched only when exactly one was deleted and one was added. */
  predicate CheckEmpty(list: seq<Link>, deleted: Status, added: Status) {
    Count(list, deleted, EmptyId) == 1 && Count(list, added, EmptyId) == 1
  }

  predicate Eligible(list: seq<Link>, deleted: Status, added: Status, id: Id) {
    id != EmptyId || CheckEmpty(list, deleted, added)
  }

  /** A content that both disappeared and appeared. */
  predicate Matchable(list: seq<Link>, deleted: Status, added: Status, id: Id) {
    && Count(list, deleted, id) > 0
    && Count(list, added, id) > 0
    && Eligible(list, deleted, added, id)
  }

  lemma {:induction false} CountConcat(a: seq<Link>, b: seq<Link>, status: Status, id: Id)
    ensures Count(a + b, status, id) == Count(a, status, id) + Count(b, status, id)
  {
    if a == [] {
      assert a + b == b;
    } else {
      assert (a + b)[1..] == a[1..] + b;
      CountConcat(a[1..], b, status, id);
    }
  }

  /** The counting loop over entries of empty content. */
  method CountEmpty(list: seq<Link>) returns (checkEmptyFile: bool, checkEmptyDir: bool)
    ensures checkEmptyFile == CheckEmpty(list, Deleted, Added)
    ensures checkEmptyDir == CheckEmpty(list, DirDeleted, DirAdded)
    ensures checkEmptyFile <==> Count(list, Deleted, EmptyId) == 1 && Count(list, Added, EmptyId) == 1
    ensures checkEmptyDir <==> Count(list, DirDeleted, EmptyId) == 1 && Count(list, DirAdded, EmptyId) == 1
  {
    var deletedEmpty, deletedEmptyDir, addedEmpty, addedEmptyDir := 0, 0, 0, 0;
    for p := 0 to |list|
      invariant deletedEmpty == Count(list[..p], Deleted, EmptyId)
      invariant deletedEmptyDir == Count(list[..p], DirDeleted, EmptyId)
      invariant addedEmpty == Count(list[..p], Added, EmptyId)
      invariant addedEmptyDir == Count(list[..p], DirAdded, EmptyId)
    {
      assert list[..p + 1] == list[..p] + [list[p]];
      CountConcat(list[..p], [list[p]], Deleted, EmptyId);
      CountConcat(list[..p], [list[p]], DirDeleted, EmptyId);
      CountConcat(list[..p], [list[p]], Added, EmptyId);
      CountConcat(list[..p], [list[p]], DirAdded, EmptyId);
      var de := list[p].data;
      if de.id == EmptyId {
        if de.status == Deleted { deletedEmpty := deletedEmpty + 1; }
        if de.status == DirDeleted { deletedEmptyDir := deletedEmptyDir + 1; }
        if de.status == Added { addedEmpty := addedEmpty + 1; }
        if de.status == DirAdded { addedEmptyDir := addedEmptyDir + 1; }
      }
    }
    assert list[..|list|] == list;
    checkEmptyDir := deletedEmptyDir == 1 && addedEmptyDir == 1;
    checkEmptyFile := deletedEmpty == 1 && addedEmpty == 1;
  }

  /** The last link of a list with that status and content. */
  function LastLink(list: seq<Link>, status: Status, id: Id): Option<Link> {
    if list == [] then None
    else if Is(list[|list| - 1], status, id) then Some(list[|list| - 1])
    else LastLink(list[..|list| - 1], status, id)
  }

  function FirstLink(list: seq<Link>, status: Status, id: Id): Option<Link> {
    if list == [] then None else if Is(list[0], status, id) then Some(list[0]) else FirstLink(list[1..], status, id)
  }

  lemma LastOneMore(list: seq<Link>, x: Link, status: Status, id: Id)
    ensures LastLink(list + [x], status, id) == if Is(x, status, id) then Some(x) else LastLink(list, status, id)
  {
    assert (list + [x])[..|list|] == list;
  }

  /** The last one has none behind it. */
  lemma {:induction false} LastLinkIsLast(list: seq<Link>, status: Status, id: Id)
    ensures match LastLink(list, status, id)
            case None => forall k :: 0 <= k < |list| ==> !Is(list[k], status, id)
            case Some(l) =>
              Is(l, status, id) &&
              exists k :: 0 <= k < |list| && list[k] == l && forall j :: k < j < |list| ==> !Is(list[j], status, id)
  {
    if list != [] {
      var front := list[..|list| - 1];
      LastLinkIsLast(front, status, id);
      if !Is(list[|list| - 1], status, id) && LastLink(front, status, id).Some? {
        var k :| 0 <= k < |front| && front[k] == LastLink(front, status, id).value
                 && forall j :: k < j < |front| ==> !Is(front[j], status, id);
        assert list[k] == front[k];
      }
    }
  }

  /** A table of deletions: exactly the eligible contents, each with one of its links. */
  ghost predicate TableOf(list: seq<Link>, table: map<Id, Link>, deleted: Status, check: bool) {
    && (forall id :: id in table <==> (exists l :: l in list && Is(l, deleted, id)) && (id != EmptyId || check))
    && (forall id :: id in table ==> table[id] in list && Is(table[id], deleted, id))
  }

  /** And that is the last of its links. */
  predicate LastOnes(list: seq<Link>, table: map<Id, Link>, deleted: Status) {
    forall id :: id in table ==> LastLink(list, deleted, id) == Some(table[id])
  }

  lemma LastOnesOneMore(list: seq<Link>, x: Link, table: map<Id, Link>, deleted: Status)
    requires LastOnes(list, table, deleted)
    ensures x.data.status == deleted ==> LastOnes(list + [x], table[x.data.id := x], deleted)
    ensures x.data.status != deleted || x.data.id !in table ==> LastOnes(list + [x], table, deleted)
  {
    forall id ensures LastLink(list + [x], deleted, id) == if Is(x, deleted, id) then Some(x) else LastLink(list, deleted, id) {
      LastOneMore(list, x, deleted, id);
    }
  }

  /** The loop that hashes all deletions by content; a later link replaces an earlier one. */
  method CollectDeleted(list: seq<Link>, checkEmptyFile: bool, checkEmptyDir: bool)
    returns (files: map<Id, Link>, dirs: map<Id, Link>)
    ensures TableOf(list, files, Deleted, checkEmptyFile) && LastOnes(list, files, Deleted)
    ensures TableOf(list, dirs, DirDeleted, checkEmptyDir) && LastOnes(list, dirs, DirDeleted)
  {
    files, dirs := map[], map[];
    for p := 0 to |list|
      invariant TableOf(list[..p], files, Deleted, checkEmptyFile) && LastOnes(list[..p], files, Deleted)
      invariant TableOf(list[..p], dirs, DirDeleted, checkEmptyDir) && LastOnes(list[..p], dirs, DirDeleted)
    {
      assert list[..p + 1] == list[..p] + [list[p]];
      assert forall l :: l in list[..p + 1] <==> l in list[..p] || l == list[p];
      LastOnesOneMore(list[..p], list[p], files, Deleted);
      LastOnesOneMore(list[..p], list[p], dirs, DirDeleted);
      var de := list[p].data;
      assert Is(list[p], de.status, de.id);
      if de.status == Deleted {
        if de.id == EmptyId && !checkEmptyFile { continue; }
        files := files[de.id := list[p]];
      }
      if de.status == DirDeleted {
        if de.id == EmptyId && !checkEmptyDir { continue; }
        dirs := dirs[de.id := list[p]];
      }
    }
    assert list[..|list|] == list;
  }

  predicate WantedAddition(l: Link, checkEmptyFile: bool, checkEmptyDir: bool) {
    || (l.data.status == Added && (l.data.id != EmptyId || checkEmptyFile))
    || (l.data.status == DirAdded && (l.data.id != EmptyId || checkEmptyDir))
  }

  /** The wanted additions of a list, the last one first. */
  function Additions(list: seq<Link>, checkEmptyFile: bool, checkEmptyDir: bool): seq<Link> {
    if list == [] then []
    else
      var l, rest := list[|list| - 1], Additions(list[..|list| - 1], checkEmptyFile, checkEmptyDir);
      if WantedAddition(l, checkEmptyFile, checkEmptyDir) then [l] + rest else rest
  }

  /** The first of the additions with some content is the last in the list. */
  lemma {:induction false} FirstAdditionIsLast(list: seq<Link>, checkFile: bool, checkDir: bool, status: Status, id: Id)
    requires status == Added || status == DirAdded
    requires id != EmptyId || (if status == Added then checkFile else checkDir)
    ensures FirstLink(Additions(list, checkFile, checkDir), status, id) == LastLink(list, status, id)
  {
    if list != [] {
      FirstAdditionIsLast(list[..|list| - 1], checkFile, checkDir, status, id);
      var l, rest := list[|list| - 1], Additions(list[..|list| - 1], checkFile, checkDir);
      assert ([l] + rest)[1..] == rest;
    }
  }

  /** The loop that gathers all additions, the last one first. */
  method CollectAdded(list: seq<Link>, checkEmptyFile: bool, checkEmptyDir: bool) returns (added: seq<Link>)
    requires Distinct(list)
    ensures Distinct(added)
    ensures added == Additions(list, checkEmptyFile, checkEmptyDir)
    ensures forall l :: l in added <==> l in list && WantedAddition(l, checkEmptyFile, checkEmptyDir)
  {
    added := [];
    for p := 0 to |list|
      invariant Distinct(added)
      invariant added == Additions(list[..p], checkEmptyFile, checkEmptyDir)
      invariant forall l :: l in added <==> l in list[..p] && WantedAddition(l, checkEmptyFile, checkEmptyDir)
    {
      assert list[..p + 1] == list[..p] + [list[p]];
      assert forall l :: l in list[..p] ==> l != list[p];
      assert list[..p + 1][..p] == list[..p];
      var de := list[p].data;
      if de.status == Added {
        if de.id == EmptyId && !checkEmptyFile { continue; }
        PrependDistinct(list[p], added);
        added := [list[p]] + added;
      }
      if de.status == DirAdded {
        if de.id == EmptyId && !checkEmptyDir { continue; }
        PrependDistinct(list[p], added);
        added := [list[p]] + added;
      }
    }
    assert list[..|list|] == list;
  }

  /** The list once an addition and a deletion gave way to the rename in front. */
  function Paired(list: seq<Link>, add: Link, del: Link, rename: Link): seq<Link> {
    [rename] + Remove(Remove(list, add), del)
  }

  predicate RenameOf(rename: Link, add: Link, del: Link) {
    && rename.data.id == add.data.id == del.data.id
    && rename.data.path == del.data.path && rename.data.newPath == add.data.path
    && ((add.data.status == Added && del.data.status == Deleted && rename.data.status == Renamed)
        || (add.data.status == DirAdded && del.data.status == DirDeleted && rename.data.status == DirRenamed))
  }

  lemma PairingMembers(list: seq<Link>, add: Link, del: Link, rename: Link)
    requires Distinct(list) && add in list && del in list && rename !in list && RenameOf(rename, add, del)
    ensures var out := Paired(list, add, del, rename);
      && Distinct(out)
      && |out| == |list| - 1
      && (forall x :: x in out <==> x == rename || (x in list && x != add && x != del))
  {
    RemoveOne(list, add);
    RemoveOne(Remove(list, add), del);
    PrependDistinct(rename, Remove(Remove(list, add), del));
  }

  lemma RenameMeans(rename: Link, add: Link, del: Link)
    requires RenameOf(rename, add, del)
    ensures Meaning(rename.data) == Meaning(del.data) + Meaning(add.data)
  {
  }

  lemma SumsAgree(whole: multiset<Fact>, mid: multiset<Fact>, rest: multiset<Fact>,
                  add: multiset<Fact>, del: multiset<Fact>)
    requires whole == mid + add && mid == rest + del
    ensures (del + add) + rest == whole
  {
  }

  /** The pair and the rename say the same. */
  lemma PairingMeaning(list: seq<Link>, add: Link, del: Link, rename: Link)
    requires Distinct(list) && add in list && del in list && RenameOf(rename, add, del)
    ensures MeaningAll(Paired(list, add, del, rename)) == MeaningAll(list)
  {
    RemoveOne(list, add);
    var mid := Remove(list, add);
    var rest := Remove(mid, del);
    RemoveMeaning(list, add);
    RemoveMeaning(mid, del);
    assert Paired(list, add, del, rename)[1..] == rest;
    RenameMeans(rename, add, del);
    SumsAgree(MeaningAll(list), MeaningAll(mid), MeaningAll(rest), Meaning(add.data), Meaning(del.data));
  }

  lemma PairingCounts(list: seq<Link>, add: Link, del: Link, rename: Link)
    requires Distinct(list) && add in list && del in list && RenameOf(rename, add, del)
    ensures RenameCount(Paired(list, add, del, rename)) == RenameCount(list) + 1
    ensures forall status, id | status in {Renamed, DirRenamed} ::
              Count(Paired(list, add, del, rename), status, id)
              == Count(list, status, id) + (if Is(rename, status, id) then 1 else 0)
  {
    RemoveOne(list, add);
    var mid := Remove(list, add);
    RemoveCounts(list, add);
    RemoveCounts(mid, del);
    assert Paired(list, add, del, rename)[1..] == Remove(mid, del);
  }

  /** The deletions still in the table are in the list. */
  predicate TableInList(out: seq<Link>, table: map<Id, Link>, del: Status) {
    forall id :: id in table ==> table[id] in out && Is(table[id], del, id)
  }

  /** Additions whose content is still in the table have yet to be looked at. */
  predicate StillPending(added: seq<Link>, pending: seq<Link>, table: map<Id, Link>, add: Status) {
    forall l :: l in added && l.data.status == add && l.data.id in table ==> l in pending
  }

  /** The contents that left the table were added, and each gave one rename. */
  ghost predicate LeftByRenames(list: seq<Link>, out: seq<Link>, added: seq<Link>,
                                table0: map<Id, Link>, table: map<Id, Link>, add: Status, ren: Status)
  {
    && (forall id :: id in table0 && id !in table ==> exists l :: l in added && Is(l, add, id))
    && (forall id :: Count(out, ren, id) == Count(list, ren, id) + (if id in table0 && id !in table then 1 else 0))
  }

  /** How far one kind of renames (of files, or of directories) has come: `table0` and `table`
      are the deletions at the start and now, `added` and `pending` the additions. */
  ghost predicate Progress(list: seq<Link>, out: seq<Link>, added: seq<Link>, pending: seq<Link>,
                           table0: map<Id, Link>, table: map<Id, Link>, del: Status, add: Status, ren: Status)
  {
    && table.Keys <= table0.Keys
    && TableInList(out, table, del)
    && StillPending(added, pending, table, add)
    && LeftByRenames(list, out, added, table0, table, add, ren)
  }

  /** When all additions are done, exactly the matchable contents were renamed, once each. */
  lemma ProgressDone(list: seq<Link>, out: seq<Link>, added: seq<Link>, table0: map<Id, Link>, table: map<Id, Link>,
                     del: Status, add: Status, ren: Status, check: bool, id: Id)
    requires Progress(list, out, added, [], table0, table, del, add, ren)
    requires check == CheckEmpty(list, del, add) && TableOf(list, table0, del, check)
    requires forall l :: l in list && Is(l, add, id) && (id != EmptyId || check) ==> l in added
    requires forall l :: l in added ==> l in list
    ensures Count(out, ren, id) == Count(list, ren, id) + (if Matchable(list, del, add, id) then 1 else 0)
  {
    CountHasMember(list, del, id);
    CountHasMember(list, add, id);
    if id in table0 && id !in table {
      var l :| l in added && Is(l, add, id);
      assert l in list;
    }
  }

  lemma MatchedTable(out: seq<Link>, table: map<Id, Link>, del: Status, add: Status, addition: Link, rename: Link)
    requires Distinct(out) && rename !in out && addition in out && addition.data.id in table && del != add
    requires TableInList(out, table, del) && Is(addition, add, addition.data.id)
    requires RenameOf(rename, addition, table[addition.data.id])
    ensures var id := addition.data.id; TableInList(Paired(out, addition, table[id], rename), table - {id}, del)
  {
    var id := addition.data.id;
    PairingMembers(out, addition, table[id], rename);
    forall i | i in table - {id}
      ensures (table - {id})[i] in Paired(out, addition, table[id], rename)
    {
      assert Is(table[i], del, i) && Is(table[id], del, id);
    }
  }

  lemma MatchedPending(added: seq<Link>, pending: seq<Link>, table: map<Id, Link>, add: Status)
    requires pending != [] && StillPending(added, pending, table, add)
    ensures StillPending(added, pending[1..], table - {pending[0].data.id}, add)
  {
    forall l | l in added && l.data.status == add && l.data.id in table - {pending[0].data.id}
      ensures l in pending[1..]
    {
      assert l in pending && l != pending[0];
    }
  }

  lemma MatchedRename(list: seq<Link>, out: seq<Link>, added: seq<Link>, table0: map<Id, Link>, table: map<Id, Link>,
                      del: Status, add: Status, ren: Status, addition: Link, rename: Link)
    requires Distinct(out) && addition in out && addition in added && addition.data.id in table
    requires table.Keys <= table0.Keys && TableInList(out, table, del) && Is(addition, add, addition.data.id)
    requires LeftByRenames(list, out, added, table0, table, add, ren)
    requires RenameOf(rename, addition, table[addition.data.id]) && ren == rename.data.status
    ensures var id := addition.data.id;
      LeftByRenames(list, Paired(out, addition, table[id], rename), added, table0, table - {id}, add, ren)
  {
    PairingCounts(out, addition, table[addition.data.id], rename);
  }

  /** One matched addition keeps the progress of both kinds. */
  lemma MatchedStep(list: seq<Link>, out: seq<Link>, added: seq<Link>, pending: seq<Link>,
                    table0: map<Id, Link>, table: map<Id, Link>, del: Status, add: Status, ren: Status, rename: Link)
    requires Distinct(out) && Distinct(pending) && pending != [] && rename !in out
    requires pending[0] in out && pending[0] in added && Is(pending[0], add, pending[0].data.id)
    requires pending[0].data.id in table
    requires Progress(list, out, added, pending, table0, table, del, add, ren)
    requires RenameOf(rename, pending[0], table[pending[0].data.id])
    requires ren == rename.data.status && del != add
    ensures var id := pending[0].data.id;
      Progress(list, Paired(out, pending[0], table[id], rename), added, pending[1..], table0, table - {id}, del, add, ren)
  {
    MatchedTable(out, table, del, add, pending[0], rename);
    MatchedPending(added, pending, table, add);
    MatchedRename(list, out, added, table0, table, del, add, ren, pending[0], rename);
  }

  /** ... and of the other kind. */
  lemma OtherStep(list: seq<Link>, out: seq<Link>, added: seq<Link>, pending: seq<Link>,
                  table0: map<Id, Link>, table: map<Id, Link>, del: Status, add: Status, ren: Status,
                  gone: Link, rename: Link)
    requires Distinct(out) && pending != [] && rename !in out && pending[0] in out && gone in out
    requires Progress(list, out, added, pending, table0, table, del, add, ren)
    requires RenameOf(rename, pending[0], gone)
    requires pending[0].data.status !in {add, del} && gone.data.status != del
    requires ren in {Renamed, DirRenamed} && rename.data.status != ren
    ensures Progress(list, Paired(out, pending[0], gone, rename), added, pending[1..], table0, table, del, add, ren)
  {
    PairingMembers(out, pending[0], gone, rename);
    PairingCounts(out, pending[0], gone, rename);
    forall l | l in added && l.data.status == add && l.data.id in table
      ensures l in pending[1..]
    {
      assert l in pending && l != pending[0];
    }
  }

  /** Everything the pairing loop maintains; `p` are the additions still to be looked at. */
  ghost predicate Resolving(list: seq<Link>, out: seq<Link>, added: seq<Link>, p: seq<Link>,
                            files0: map<Id, Link>, files: map<Id, Link>, dirs0: map<Id, Link>, dirs: map<Id, Link>)
  {
    && Distinct(out) && Distinct(p)
    && (forall l :: l in p ==> l in added && l in out && l.data.status in {Added, DirAdded})
    && MeaningAll(out) == MeaningAll(list)
    && |out| + RenameCount(out) == |list| + RenameCount(list)
    && Progress(list, out, added, p, files0, files, Deleted, Added, Renamed)
    && Progress(list, out, added, p, dirs0, dirs, DirDeleted, DirAdded, DirRenamed)
  }

  lemma TailStaysIn(list: seq<Link>, added: seq<Link>, p: seq<Link>, add: Link, del: Link, rename: Link)
    requires Distinct(list) && add in list && del in list && rename !in list && RenameOf(rename, add, del)
    requires Distinct(p) && p != [] && p[0] == add
    requires forall l :: l in p ==> l in added && l in list && l.data.status in {Added, DirAdded}
    ensures Distinct(p[1..])
    ensures forall l :: l in p[1..] ==> l in added && l in Paired(list, add, del, rename) && l.data.status in {Added, DirAdded}
  {
    PairingMembers(list, add, del, rename);
    forall l | l in p[1..] ensures l != add && l != del {
    }
  }

  lemma FileMatched(list: seq<Link>, out: seq<Link>, added: seq<Link>, p: seq<Link>, files0: map<Id, Link>,
                    files: map<Id, Link>, dirs0: map<Id, Link>, dirs: map<Id, Link>, rename: Link)
    requires Resolving(list, out, added, p, files0, files, dirs0, dirs) && p != [] && rename !in out
    requires p[0].data.status == Added && p[0].data.id in files && RenameOf(rename, p[0], files[p[0].data.id])
    ensures Resolving(list, Paired(out, p[0], files[p[0].data.id], rename), added, p[1..],
                      files0, files - {p[0].data.id}, dirs0, dirs)
  {
    var add, del := p[0], files[p[0].data.id];
    PairingMembers(out, add, del, rename);
    PairingMeaning(out, add, del, rename);
    PairingCounts(out, add, del, rename);
    TailStaysIn(out, added, p, add, del, rename);
    MatchedStep(list, out, added, p, files0, files, Deleted, Added, Renamed, rename);
    OtherStep(list, out, added, p, dirs0, dirs, DirDeleted, DirAdded, DirRenamed, del, rename);
  }

  lemma DirMatched(list: seq<Link>, out: seq<Link>, added: seq<Link>, p: seq<Link>, files0: map<Id, Link>,
                   files: map<Id, Link>, dirs0: map<Id, Link>, dirs: map<Id, Link>, rename: Link)
    requires Resolving(list, out, added, p, files0, files, dirs0, dirs) && p != [] && rename !in out
    requires p[0].data.status == DirAdded && p[0].data.id in dirs && RenameOf(rename, p[0], dirs[p[0].data.id])
    ensures Resolving(list, Paired(out, p[0], dirs[p[0].data.id], rename), added, p[1..],
                      files0, files, dirs0, dirs - {p[0].data.id})
  {
    var add, del := p[0], dirs[p[0].data.id];
    PairingMembers(out, add, del, rename);
    PairingMeaning(out, add, del, rename);
    PairingCounts(out, add, del, rename);
    TailStaysIn(out, added, p, add, del, rename);
    MatchedStep(list, out, added, p, dirs0, dirs, DirDeleted, DirAdded, DirRenamed, rename);
    OtherStep(list, out, added, p, files0, files, Deleted, Added, Renamed, del, rename);
  }

  lemma NoneMatched(list: seq<Link>, out: seq<Link>, added: seq<Link>, p: seq<Link>, files0: map<Id, Link>,
                    files: map<Id, Link>, dirs0: map<Id, Link>, dirs: map<Id, Link>)
    requires Resolving(list, out, added, p, files0, files, dirs0, dirs) && p != []
    requires p[0].data.id !in (if p[0].data.status == Added then files else dirs)
    ensures Resolving(list, out, added, p[1..], files0, files, dirs0, dirs)
  {
  }

  lemma StartResolving(list: seq<Link>, added: seq<Link>, files: map<Id, Link>, dirs: map<Id, Link>,
                       checkFile: bool, checkDir: bool)
    requires Distinct(list) && Distinct(added)
    requires TableOf(list, files, Deleted, checkFile) && TableOf(list, dirs, DirDeleted, checkDir)
    requires forall l :: l in added <==> l in list && WantedAddition(l, checkFile, checkDir)
    ensures Resolving(list, list, added, added, files, files, dirs, dirs)
  {
  }

  lemma FoundDeletion(list: seq<Link>, out: seq<Link>, added: seq<Link>, p: seq<Link>, files0: map<Id, Link>,
                      files: map<Id, Link>, dirs0: map<Id, Link>, dirs: map<Id, Link>)
    requires Resolving(list, out, added, p, files0, files, dirs0, dirs) && p != []
    ensures p[0].data.status in {Added, DirAdded}
    ensures var id := p[0].data.id;
      && (id in files ==> Is(files[id], Deleted, id) && files[id] in out)
      && (id in dirs ==> Is(dirs[id], DirDeleted, id) && dirs[id] in out)
  {
  }

  /** Exactly the matchable contents of one kind have become renames, once each. */
  ghost predicate RenamedExactly(list: seq<Link>, out: seq<Link>, del: Status, add: Status, ren: Status) {
    forall id :: Count(out, ren, id) == Count(list, ren, id) + (if Matchable(list, del, add, id) then 1 else 0)
  }

  lemma AllDone(list: seq<Link>, out: seq<Link>, added: seq<Link>, files0: map<Id, Link>, files: map<Id, Link>,
                dirs0: map<Id, Link>, dirs: map<Id, Link>, checkFile: bool, checkDir: bool)
    requires Resolving(list, out, added, [], files0, files, dirs0, dirs)
    requires checkFile == CheckEmpty(list, Deleted, Added) && checkDir == CheckEmpty(list, DirDeleted, DirAdded)
    requires TableOf(list, files0, Deleted, checkFile) && TableOf(list, dirs0, DirDeleted, checkDir)
    requires forall l :: l in added <==> l in list && WantedAddition(l, checkFile, checkDir)
    ensures RenamedExactly(list, out, Deleted, Added, Renamed)
    ensures RenamedExactly(list, out, DirDeleted, DirAdded, DirRenamed)
  {
    forall id
      ensures Count(out, Renamed, id) == Count(list, Renamed, id)
              + (if Matchable(list, Deleted, Added, id) then 1 else 0)
    {
      ProgressDone(list, out, added, files0, files, Deleted, Added, Renamed, checkFile, id);
    }
    forall id
      ensures Count(out, DirRenamed, id) == Count(list, DirRenamed, id)
              + (if Matchable(list, DirDeleted, DirAdded, id) then 1 else 0)
    {
      ProgressDone(list, out, added, dirs0, dirs, DirDeleted, DirAdded, DirRenamed, checkDir, id);
    }
  }

  // ---- which links are paired ----

  /** The rename of this deletion and this addition is in the list. */
  predicate PairIn(out: seq<Link>, del: Link, add: Option<Link>, ren: Status) {
    add.Some? && exists r :: r in out && r.data.status == ren && r.data.id == del.data.id
                             && r.data.path == del.data.path && r.data.newPath == add.value.data.path
  }

  /** With k additions looked at: a content still in the table had none among them, and one that left
      it gave the rename of its table entry and its first addition. */
  ghost predicate Picked(out: seq<Link>, added: seq<Link>, k: nat, table0: map<Id, Link>, table: map<Id, Link>,
                         add: Status, ren: Status)
    requires k <= |added|
  {
    && (forall id :: id in table ==>
          id in table0 && table[id] == table0[id] && FirstLink(added, add, id) == FirstLink(added[k..], add, id))
    && (forall id :: id in table0 && id !in table ==> PairIn(out, table0[id], FirstLink(added, add, id), ren))
  }

  lemma PairStays(out: seq<Link>, a: Link, d: Link, rename: Link, del: Link, add: Option<Link>, ren: Status)
    requires Distinct(out) && a in out && d in out && rename !in out && RenameOf(rename, a, d)
    requires ren in {Renamed, DirRenamed} && PairIn(out, del, add, ren)
    ensures PairIn(Paired(out, a, d, rename), del, add, ren)
  {
    PairingMembers(out, a, d, rename);
    var r :| r in out && r.data.status == ren && r.data.id == del.data.id
             && r.data.path == del.data.path && r.data.newPath == add.value.data.path;
    assert r in Paired(out, a, d, rename);
  }

  lemma LaterFirst(added: seq<Link>, k: nat, status: Status, id: Id)
    requires k < |added|
    ensures FirstLink(added[k..], status, id)
            == if Is(added[k], status, id) then Some(added[k]) else FirstLink(added[k + 1..], status, id)
  {
    assert added[k..][1..] == added[k + 1..];
  }

  /** A matched addition of this kind. */
  lemma PickedHere(out: seq<Link>, added: seq<Link>, k: nat, table0: map<Id, Link>, table: map<Id, Link>,
                   add: Status, ren: Status, rename: Link)
    requires k < |added| && Picked(out, added, k, table0, table, add, ren) && ren in {Renamed, DirRenamed}
    requires var id := added[k].data.id;
      && added[k].data.status == add && id in table
      && Distinct(out) && added[k] in out && table[id] in out && rename !in out
      && RenameOf(rename, added[k], table[id]) && rename.data.status == ren
    ensures var id := added[k].data.id;
      Picked(Paired(out, added[k], table[id], rename), added, k + 1, table0, table - {id}, add, ren)
  {
    var id := added[k].data.id;
    var out' := Paired(out, added[k], table[id], rename);
    PairingMembers(out, added[k], table[id], rename);
    forall i | i in table ensures FirstLink(added[k..], add, i) == if i == id then Some(added[k]) else FirstLink(added[k + 1..], add, i) {
      LaterFirst(added, k, add, i);
    }
    forall i | i in table0 && i !in table - {id} ensures PairIn(out', table0[i], FirstLink(added, add, i), ren) {
      if i == id {
        assert rename in out';
      } else {
        PairStays(out, added[k], table[id], rename, table0[i], FirstLink(added, add, i), ren);
      }
    }
  }

  /** An addition of the other kind, or one without a deletion. */
  lemma PickedElsewhere(out: seq<Link>, out': seq<Link>, added: seq<Link>, k: nat, table0: map<Id, Link>,
                        table: map<Id, Link>, add: Status, ren: Status)
    requires k < |added| && Picked(out, added, k, table0, table, add, ren)
    requires added[k].data.status != add || added[k].data.id !in table
    requires forall id :: id in table0 && id !in table ==> PairIn(out', table0[id], FirstLink(added, add, id), ren)
    ensures Picked(out', added, k + 1, table0, table, add, ren)
  {
    forall i | i in table ensures FirstLink(added[k..], add, i) == FirstLink(added[k + 1..], add, i) {
      LaterFirst(added, k, add, i);
    }
  }

  lemma OthersStay(out: seq<Link>, added: seq<Link>, k: nat, table0: map<Id, Link>, table: map<Id, Link>,
                   add: Status, ren: Status, gone: Link, rename: Link)
    requires k < |added| && Picked(out, added, k, table0, table, add, ren) && ren in {Renamed, DirRenamed}
    requires Distinct(out) && added[k] in out && gone in out && rename !in out && RenameOf(rename, added[k], gone)
    requires added[k].data.status != add
    ensures Picked(Paired(out, added[k], gone, rename), added, k + 1, table0, table, add, ren)
  {
    var out' := Paired(out, added[k], gone, rename);
    forall id | id in table0 && id !in table ensures PairIn(out', table0[id], FirstLink(added, add, id), ren) {
      PairStays(out, added[k], gone, rename, table0[id], FirstLink(added, add, id), ren);
    }
    PickedElsewhere(out, out', added, k, table0, table, add, ren);
  }

  /** Of each matchable content, the last deletion and the last addition of the list were paired. */
  ghost predicate LastArePaired(list: seq<Link>, out: seq<Link>, del: Status, add: Status, ren: Status) {
    forall id :: Eligible(list, del, add, id) && LastLink(list, del, id).Some? && LastLink(list, add, id).Some? ==>
      PairIn(out, LastLink(list, del, id).value, LastLink(list, add, id), ren)
  }

  lemma PickedLast(list: seq<Link>, out: seq<Link>, checkFile: bool, checkDir: bool, table0: map<Id, Link>,
                   table: map<Id, Link>, del: Status, add: Status, ren: Status)
    requires (del == Deleted && add == Added) || (del == DirDeleted && add == DirAdded)
    requires var check := if add == Added then checkFile else checkDir;
      check == CheckEmpty(list, del, add) && TableOf(list, table0, del, check)
    requires LastOnes(list, table0, del)
    requires var added := Additions(list, checkFile, checkDir); Picked(out, added, |added|, table0, table, add, ren)
    ensures LastArePaired(list, out, del, add, ren)
  {
    var added := Additions(list, checkFile, checkDir);
    forall id | Eligible(list, del, add, id) && LastLink(list, del, id).Some? && LastLink(list, add, id).Some?
      ensures PairIn(out, LastLink(list, del, id).value, LastLink(list, add, id), ren)
    {
      FirstAdditionIsLast(list, checkFile, checkDir, add, id);
      LastIsIn(list, del, id);
      assert id in table0;
      assert added[|added|..] == [];
    }
  }

  lemma {:induction false} LastIsIn(list: seq<Link>, status: Status, id: Id)
    ensures LastLink(list, status, id).Some? ==> LastLink(list, status, id).value in list && Is(LastLink(list, status, id).value, status, id)
  {
    if list != [] {
      LastIsIn(list[..|list| - 1], status, id);
    }
  }

  /** diff_resolve_renames.  The result says what the list said; exactly the matchable contents
      were turned into a rename, once per kind, of their last deletion and their last addition; each
      rename shortens the list by one. */
  method DiffResolveRenames(list: seq<Link>) returns (out: seq<Link>)
    requires Distinct(list)
    ensures Distinct(out)
    ensures MeaningAll(out) == MeaningAll(list)
    ensures |out| + RenameCount(out) == |list| + RenameCount(list)
    ensures RenamedExactly(list, out, Deleted, Added, Renamed)
    ensures RenamedExactly(list, out, DirDeleted, DirAdded, DirRenamed)
    ensures LastArePaired(list, out, Deleted, Added, Renamed)
    ensures LastArePaired(list, out, DirDeleted, DirAdded, DirRenamed)
  {
    var checkEmptyFile, checkEmptyDir := CountEmpty(list);
    var deletedFiles, deletedDirs := CollectDeleted(list, checkEmptyFile, checkEmptyDir);
    var added := CollectAdded(list, checkEmptyFile, checkEmptyDir);
    ghost var files0, dirs0 := deletedFiles, deletedDirs;

    out := list;
    var p := added;
    ghost var k := 0;
    StartResolving(list, added, deletedFiles, deletedDirs, checkEmptyFile, checkEmptyDir);
    while p != []
      invariant Resolving(list, out, added, p, files0, deletedFiles, dirs0, deletedDirs)
      invariant k <= |added| && p == added[k..]
      invariant Picked(out, added, k, files0, deletedFiles, Added, Renamed)
      invariant Picked(out, added, k, dirs0, deletedDirs, DirAdded, DirRenamed)
      decreases |p|
    {
      FoundDeletion(list, out, added, p, files0, deletedFiles, dirs0, deletedDirs);
      var add := p[0];
      var deAdd := add.data;
      var table := if deAdd.status == Added then deletedFiles else deletedDirs;
      if deAdd.id in table {
        var del := table[deAdd.id];
        var deDel := del.data;
        var renameStatus := if deAdd.status == DirAdded then DirRenamed else Renamed;
        var rename := new Link(DiffEntry(renameStatus, deDel.id, deDel.path, deAdd.path, 0, 0));
        if deDel.status == DirDeleted {
          DirMatched(list, out, added, p, files0, deletedFiles, dirs0, deletedDirs, rename);
          PickedHere(out, added, k, dirs0, deletedDirs, DirAdded, DirRenamed, rename);
          OthersStay(out, added, k, files0, deletedFiles, Added, Renamed, del, rename);
          deletedDirs := deletedDirs - {deAdd.id};
        } else {
          FileMatched(list, out, added, p, files0, deletedFiles, dirs0, deletedDirs, rename);
          PickedHere(out, added, k, files0, deletedFiles, Added, Renamed, rename);
          OthersStay(out, added, k, dirs0, deletedDirs, DirAdded, DirRenamed, del, rename);
          deletedFiles := deletedFiles - {deAdd.id};
        }
        out := Remove(out, add);
        out := Remove(out, del);
        out := [rename] + out;
      } else {
        NoneMatched(list, out, added, p, files0, deletedFiles, dirs0, deletedDirs);
        PickedElsewhere(out, out, added, k, files0, deletedFiles, Added, Renamed);
        PickedElsewhere(out, out, added, k, dirs0, deletedDirs, DirAdded, DirRenamed);
      }
      p, k := p[1..], k + 1;
    }
    PickedLast(list, out, checkEmptyFile, checkEmptyDir, files0, deletedFiles, Deleted, Added, Renamed);
    PickedLast(list, out, checkEmptyFile, checkEmptyDir, dirs0, deletedDirs, DirDeleted, DirAdded, DirRenamed);
    AllDone(list, out, added, files0, deletedFiles, dirs0, deletedDirs, checkEmptyFile, checkEmptyDir);
  }
}
