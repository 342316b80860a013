/** The branch head and its optimistic clients: read the head, store a commit on top of it, test
    and update.  Each database transaction is one atomic step. */
module HeadProtocol {
  import opened Names
  import opened History

  // ---- the branch table ----

  datatype BranchKey = BranchKey(repoId: string, name: string)

  /** Which statements of a transaction succeed. */
  datatype DbRun = DbRun(begin: bool, select: bool, update: bool, commit: bool)

  predicate AllSucceed(db: DbRun) {
    db.begin && db.select && db.update && db.commit
  }

  /** When the head moves: every statement succeeds and the row holds the expected commit. */
  predicate HeadMoves(row: CommitId, expected: CommitId, db: DbRun) {
    AllSucceed(db) && row == expected
  }

  class BranchManager {
    var branches: map<BranchKey, CommitId>

    constructor (branches: map<BranchKey, CommitId>)
      ensures this.branches == branches
    {
      this.branches := branches;
    }

    /** The text a branch row is compared by: a missing row reads as the empty text. */
    function RowText(branch: BranchKey): CommitId
      reads this
    {
      if branch in branches then branches[branch] else ""
    }

    /** seaf_branch_manager_test_and_update_branch: the head moves exactly when every statement
        succeeds and the row still holds the expected commit; no other branch is touched. */
    method TestAndUpdateBranch(branch: BranchKey, newCommit: CommitId, oldCommit: CommitId, db: DbRun)
      returns (ret: int)
      modifies this
      ensures ret == 0 || ret == -1
      ensures ret == 0 <==> HeadMoves(old(RowText(branch)), oldCommit, db)
      ensures ret == 0 <==> db.begin && db.select && db.update && db.commit &&
                            oldCommit == if branch in old(branches) then old(branches)[branch] else ""
      ensures branches.Keys == old(branches.Keys)
      ensures forall b :: b in branches ==>
                branches[b] == if b == branch && ret == 0 then newCommit else old(branches)[b]
    {
      if !db.begin {
        return -1;
      }
      var saved := branches;
      var commitId := "";
      if !db.select {
        branches := saved;
        return -1;
      }
      if branch in branches {
        commitId := branches[branch];
      }
      if oldCommit != commitId {
        branches := saved;
        return -1;
      }
      if !db.update {
        branches := saved;
        return -1;
      }
      if branch in branches {
        branches := branches[branch := newCommit];
      }
      if !db.commit {
        branches := saved;
        return -1;
      }
      return 0;
    }
  }

  // ---- the commit store ----

  /** What compute_commit_id hashes: contents and time, but no parents. */
  datatype Draft = Draft(rootId: string, creatorId: string, creatorName: string, desc: string, ctime: int)

  /** save_commit: an id that is already stored is left alone, and that counts as success. */
  function Add(h: Commits, id: CommitId, commit: Commit): Commits {
    if id in h then h else h[id := commit]
  }

  predicate ParentsStored(h: Commits, commit: Commit) {
    (commit.parent.Some? ==> commit.parent.value in h) && (commit.second.Some? ==> commit.second.value in h)
  }

  /** Whatever its id, storing a commit keeps the history acyclic and complete. */
  lemma AddKeepsHistory(h: Commits, id: CommitId, commit: Commit)
    requires Acyclic(h) && Complete(h) && ParentsStored(h, commit)
    ensures Acyclic(Add(h, id, commit)) && Complete(Add(h, id, commit))
  {
    if id !in h {
      var h' := h[id := commit];
      var rank :| RankedBy(h, rank);
      var top := (if commit.parent.Some? then rank[commit.parent.value] else 0)
               + (if commit.second.Some? then rank[commit.second.value] else 0) + 1;
      var rank' := rank[id := top];
      forall c, q | HasParent(h', c, q) ensures rank'[q] < rank'[c] {
        if c != id { assert HasParent(h, c, q); }
      }
      assert RankedBy(h', rank');
    }
  }

  /** What is stored keeps its ancestors. */
  lemma {:induction false} AddKeepsReach(h: Commits, id: CommitId, commit: Commit, x: CommitId)
    requires Acyclic(h) && Complete(h) && Acyclic(Add(h, id, commit)) && x in h
    ensures x in Add(h, id, commit) && Reach(Add(h, id, commit), x) == Reach(h, x)
    decreases Rank(h, x)
  {
    var h' := Add(h, id, commit);
    ParentsRankLower(h);
    forall q | HasParent(h, x, q) ensures HasParent(h', x, q) && Reach(h', q) == Reach(h, q) {
      AddKeepsReach(h, id, commit, q);
    }
    forall y ensures y in Reach(h', x) <==> y in Reach(h, x) {
      ReachStep(h, x, y);
      ReachStep(h', x, y);
      assert forall q :: HasParent(h', x, q) <==> HasParent(h, x, q);
    }
  }

  /** A commit can be stored on this parent: its id is unused, or what is stored under the id
      already has the parent among its ancestors. */
  ghost predicate Fits(h: Commits, id: CommitId, parent: CommitId) {
    Acyclic(h) && (id in h ==> parent in Reach(h, id))
  }

  lemma StoredFits(h: Commits, id: CommitId, commit: Commit)
    requires Acyclic(h) && Complete(h) && ParentsStored(h, commit) && commit.parent.Some?
    ensures var h' := Add(h, id, commit);
      Acyclic(h') && (commit.parent.value in Reach(h', id) <==> Fits(h, id, commit.parent.value))
  {
    var h', p := Add(h, id, commit), commit.parent.value;
    AddKeepsHistory(h, id, commit);
    if id !in h {
      ReachStep(h', id, p);
      ReachStep(h', p, p);
      assert HasParent(h', id, p);
    }
  }

  // ---- many clients ----

  type ClientId = nat

  /** Where a client stands.  `version` counts the installs that had happened when it read. */
  datatype Client =
    | Idle
    | HasRead(parent: CommitId, version: nat)
    | HasStored(parent: CommitId, version: nat, commit: CommitId)

  datatype Install = Install(commit: CommitId, client: ClientId)

  /** The stored commits, the head of one branch, the clients, and the log of all heads so far. */
  datatype State = State(commits: Commits, head: CommitId, clients: map<ClientId, Client>, heads: seq<Install>)

  function ClientOf(s: State, c: ClientId): Client {
    if c in s.clients then s.clients[c] else Idle
  }

  datatype Step =
    | Read(c: ClientId)
    | Store(c: ClientId, id: CommitId, commit: Commit)   // seaf_commit_manager_add_commit
    | Update(c: ClientId, db: DbRun)                     // test_and_update_branch
    | LoseAnswer(c: ClientId)                            // committed, but reported as failed
    | GiveUp(c: ClientId)                                // any failure before the update

  /** A step can happen.  Ids may be used again. */
  predicate Enabled(s: State, step: Step) {
    match step
    case Read(c) => ClientOf(s, c).Idle?
    case Store(c, _, commit) =>
      && ClientOf(s, c).HasRead?
      && commit.parent == Some(ClientOf(s, c).parent)
      && (commit.second.Some? ==> commit.second.value in s.commits)
    case Update(c, _) => ClientOf(s, c).HasStored?
    case LoseAnswer(c) => ClientOf(s, c).HasStored? && ClientOf(s, c).parent == s.head
    case GiveUp(_) => true
  }

  /** The step moves the head, reported or not. */
  predicate Installs(s: State, step: Step) {
    && Enabled(s, step)
    && (step.LoseAnswer? || (step.Update? && HeadMoves(s.head, ClientOf(s, step.c).parent, step.db)))
  }

  function Installed(s: State, c: ClientId, commit: CommitId): State {
    s.(head := commit, clients := s.clients[c := Idle], heads := s.heads + [Install(commit, c)])
  }

  function Apply(s: State, step: Step): State
    requires Enabled(s, step)
  {
    if Installs(s, step) then Installed(s, step.c, ClientOf(s, step.c).commit)
    else
      match step
      case Read(c) => s.(clients := s.clients[c := HasRead(s.head, |s.heads|)])
      case Store(c, id, commit) =>
        var me := ClientOf(s, c);
        s.(commits := Add(s.commits, id, commit), clients := s.clients[c := HasStored(me.parent, me.version, id)])
      case _ => s.(clients := s.clients[step.c := Idle])
  }

  /** A refusal: the transaction came as far as the comparison, and the head was not the expected one. */
  predicate Mismatch(s: State, step: Step) {
    step.Update? && Enabled(s, step) && step.db.begin && step.db.select && s.head != ClientOf(s, step.c).parent
  }

  /** The update step is what the method does to the branch row. */
  method UpdateRow(mgr: BranchManager, branch: BranchKey, ghost s: State, c: ClientId, parent: CommitId,
                   commit: CommitId, db: DbRun)
    returns (ret: int)
    requires branch in mgr.branches && mgr.branches[branch] == s.head
    requires ClientOf(s, c).HasStored? && ClientOf(s, c).parent == parent && ClientOf(s, c).commit == commit
    modifies mgr
    ensures branch in mgr.branches && mgr.branches[branch] == Apply(s, Update(c, db)).head
    ensures ret == 0 <==> Installs(s, Update(c, db))
    ensures Mismatch(s, Update(c, db)) ==> ret == -1
  {
    ret := mgr.TestAndUpdateBranch(branch, commit, parent, db);
  }

  predicate Init(s: State, creator: ClientId) {
    && s.head in s.commits
    && s.heads == [Install(s.head, creator)]
    && s.clients == map[]
  }

  // ---- the invariant ----

  /** The head log ends in the head and names stored commits. */
  predicate HeadsLogged(s: State) {
    && s.heads != []
    && s.heads[|s.heads| - 1].commit == s.head
    && (forall k :: 0 <= k < |s.heads| ==> s.heads[k].commit in s.commits)
  }

  /** What a client knows is true, and nothing was installed by it since it read. */
  predicate ClientSound(s: State, c: ClientId, me: Client) {
    match me
    case Idle => true
    case HasRead(p, v) => ReadSound(s, c, p, v)
    case HasStored(p, v, n) => ReadSound(s, c, p, v) && n in s.commits
  }

  predicate ReadSound(s: State, c: ClientId, parent: CommitId, version: nat) {
    && parent in s.commits
    && 0 < version <= |s.heads|
    && s.heads[version - 1].commit == parent
    && forall k :: version <= k < |s.heads| ==> s.heads[k].client != c
  }

  ghost predicate Inv(s: State) {
    && Acyclic(s.commits) && Complete(s.commits)
    && HeadsLogged(s)
    && forall c :: c in s.clients ==> ClientSound(s, c, s.clients[c])
  }

  // ---- every step keeps the invariant ----

  lemma InitIsSound(s: State, creator: ClientId)
    requires Init(s, creator) && Acyclic(s.commits) && Complete(s.commits)
    ensures Inv(s)
  {
  }

  lemma StoreKeepsInv(s: State, step: Step)
    requires Inv(s) && Enabled(s, step) && step.Store?
    ensures Inv(Apply(s, step))
  {
    AddKeepsHistory(s.commits, step.id, step.commit);
    var t := Apply(s, step);
    forall c | c in t.clients ensures ClientSound(t, c, t.clients[c]) {
      if c != step.c { MoreCommitsStaySound(s, t, c, s.clients[c]); }
    }
  }

  lemma MoreCommitsStaySound(s: State, t: State, c: ClientId, me: Client)
    requires s.commits.Keys <= t.commits.Keys && s.heads == t.heads && ClientSound(s, c, me)
    ensures ClientSound(t, c, me)
  {
  }

  lemma InstallKeepsInv(s: State, step: Step)
    requires Inv(s) && Installs(s, step)
    ensures Inv(Apply(s, step))
  {
    assert ClientOf(s, step.c).parent == s.head;
  }

  lemma StepKeepsInv(s: State, step: Step)
    requires Inv(s) && Enabled(s, step)
    ensures Inv(Apply(s, step))
    ensures s.heads <= Apply(s, step).heads
  {
    if step.Store? {
      StoreKeepsInv(s, step);
    } else if Installs(s, step) {
      InstallKeepsInv(s, step);
    }
  }

  /** A step only adds to what is stored, and what is stored keeps its ancestors. */
  lemma StepKeepsReach(s: State, step: Step, x: CommitId)
    requires Inv(s) && Enabled(s, step) && x in s.commits
    ensures var t := Apply(s, step);
      Acyclic(t.commits) && x in t.commits && Reach(t.commits, x) == Reach(s.commits, x)
  {
    StepKeepsInv(s, step);
    if step.Store? {
      AddKeepsReach(s.commits, step.id, step.commit, x);
    }
  }

  /** An update refused for its expected commit means that some other client's commit was
      installed after this client read the head. */
  lemma MismatchMeansSomeoneElse(s: State, step: Step)
    requires Inv(s) && Mismatch(s, step)
    ensures var v := ClientOf(s, step.c).version; v < |s.heads| && s.heads[v].client != step.c
  {
  }

  // ---- whole runs ----

  /** A run: states and the steps between them. */
  ghost predicate IsRun(states: seq<State>, steps: seq<Step>, creator: ClientId) {
    && |states| == |steps| + 1
    && Init(states[0], creator) && Acyclic(states[0].commits) && Complete(states[0].commits)
    && forall i :: 0 <= i < |steps| ==> Enabled(states[i], steps[i]) && states[i + 1] == Apply(states[i], steps[i])
  }

  lemma {:induction false} RunKeepsInv(states: seq<State>, steps: seq<Step>, creator: ClientId, i: nat, j: nat)
    requires IsRun(states, steps, creator) && i <= j < |states|
    ensures Inv(states[j]) && states[i].heads <= states[j].heads
    decreases j
  {
    if j == 0 {
      InitIsSound(states[0], creator);
    } else {
      RunKeepsInv(states, steps, creator, if i < j then i else j - 1, j - 1);
      StepKeepsInv(states[j - 1], steps[j - 1]);
    }
  }

  lemma {:induction false} RunKeepsReach(states: seq<State>, steps: seq<Step>, creator: ClientId, i: nat, j: nat,
                                         x: CommitId)
    requires IsRun(states, steps, creator) && i <= j < |states| && x in states[i].commits
    ensures Acyclic(states[i].commits) && Acyclic(states[j].commits)
    ensures x in states[j].commits && Reach(states[j].commits, x) == Reach(states[i].commits, x)
    decreases j
  {
    RunKeepsInv(states, steps, creator, i, i);
    if i < j {
      RunKeepsReach(states, steps, creator, i, j - 1, x);
      RunKeepsInv(states, steps, creator, j - 1, j - 1);
      StepKeepsReach(states[j - 1], steps[j - 1], x);
    }
  }

  /** The store a later install goes back to: the client did nothing in between. */
  predicate StoreOf(states: seq<State>, steps: seq<Step>, m: nat, k: nat)
    requires |states| == |steps| + 1
  {
    && m < k < |steps| && steps[m].Store? && steps[m].c == steps[k].c && Installs(states[k], steps[k])
    && forall q :: m < q < k ==> steps[q].c != steps[k].c
  }

  /** A client keeps what it stored until its next step. */
  lemma {:induction false} StoreIsKept(states: seq<State>, steps: seq<Step>, creator: ClientId, m: nat, k: nat)
    requires IsRun(states, steps, creator) && m < k <= |steps| && steps[m].Store?
    requires forall q :: m < q < k ==> steps[q].c != steps[m].c
    ensures var me := ClientOf(states[k], steps[m].c);
      me.HasStored? && me.commit == steps[m].id && steps[m].commit.parent == Some(me.parent)
    decreases k
  {
    if k > m + 1 {
      StoreIsKept(states, steps, creator, m, k - 1);
    }
  }

  lemma {:induction false} StoreExists(states: seq<State>, steps: seq<Step>, creator: ClientId, c: ClientId, k: nat)
    returns (m: nat)
    requires IsRun(states, steps, creator) && k <= |steps| && ClientOf(states[k], c).HasStored?
    ensures m < k && steps[m].Store? && steps[m].c == c && forall q :: m < q < k ==> steps[q].c != c
    decreases k
  {
    assert states[k] == Apply(states[k - 1], steps[k - 1]);
    if steps[k - 1].c == c {
      m := k - 1;
    } else {
      m := StoreExists(states, steps, creator, c, k - 1);
    }
  }

  ghost predicate FitsAt(states: seq<State>, steps: seq<Step>, m: nat)
    requires m < |steps| < |states|
  {
    steps[m].Store? && steps[m].commit.parent.Some? && Fits(states[m].commits, steps[m].id, steps[m].commit.parent.value)
  }

  /** Whether an install keeps the head it replaces was decided when its commit was stored. */
  lemma StoreDecides(states: seq<State>, steps: seq<Step>, creator: ClientId, m: nat, k: nat)
    requires IsRun(states, steps, creator) && StoreOf(states, steps, m, k)
    ensures Kept(states[k + 1], states[k].head) <==> FitsAt(states, steps, m)
  {
    var id, commit := steps[m].id, steps[m].commit;
    RunKeepsInv(states, steps, creator, m, m);
    StoreIsKept(states, steps, creator, m, k);
    assert Enabled(states[m], steps[m]) && states[m + 1] == Apply(states[m], steps[m]);
    StoredFits(states[m].commits, id, commit);
    RunKeepsReach(states, steps, creator, m + 1, k + 1, id);
    RunKeepsInv(states, steps, creator, k + 1, k + 1);
    assert states[k + 1] == Apply(states[k], steps[k]) && states[k + 1].head == id;
    assert commit.parent == Some(states[k].head);
  }

  // ---- what was reported was stored ----

  /** Storing this commit leaves it behind as it is: its id is unused, or names this very commit. */
  predicate Storable(h: Commits, id: CommitId, commit: Commit) {
    id in h ==> h[id] == commit
  }

  predicate Holds(h: Commits, id: CommitId, commit: Commit) {
    id in h && h[id] == commit
  }

  lemma AddHolds(h: Commits, id: CommitId, commit: Commit)
    ensures Holds(Add(h, id, commit), id, commit) <==> Storable(h, id, commit)
  {
  }

  /** What is stored under an id never changes. */
  lemma {:induction false} RunKeepsEntry(states: seq<State>, steps: seq<Step>, creator: ClientId, i: nat, j: nat,
                                         x: CommitId)
    requires IsRun(states, steps, creator) && i <= j < |states| && x in states[i].commits
    ensures Holds(states[j].commits, x, states[i].commits[x])
    decreases j
  {
    if i < j {
      RunKeepsEntry(states, steps, creator, i, j - 1, x);
      assert states[j] == Apply(states[j - 1], steps[j - 1]);
    }
  }

  predicate StorableAt(states: seq<State>, steps: seq<Step>, m: nat)
    requires m < |steps| < |states|
  {
    steps[m].Store? && Storable(states[m].commits, steps[m].id, steps[m].commit)
  }

  predicate HeldAt(states: seq<State>, steps: seq<Step>, m: nat, j: nat)
    requires m < |steps| && j < |states|
  {
    steps[m].Store? && Holds(states[j].commits, steps[m].id, steps[m].commit)
  }

  /** An install makes the head the id that its client stored, and from then on that id names the
      commit that the client made exactly when its store met no other commit under it. */
  lemma InstalledIsStored(states: seq<State>, steps: seq<Step>, creator: ClientId, m: nat, k: nat, j: nat)
    requires IsRun(states, steps, creator) && StoreOf(states, steps, m, k) && k < j < |states|
    ensures states[k + 1].head == steps[m].id && steps[m].id in states[j].commits
    ensures HeldAt(states, steps, m, j) <==> StorableAt(states, steps, m)
  {
    StoreIsKept(states, steps, creator, m, k);
    assert Enabled(states[m], steps[m]) && states[m + 1] == Apply(states[m], steps[m]);
    assert states[k + 1] == Apply(states[k], steps[k]);
    AddHolds(states[m].commits, steps[m].id, steps[m].commit);
    RunKeepsEntry(states, steps, creator, m + 1, j, steps[m].id);
  }

  /** Every installed change is stored as its client made it, for good. */
  ghost predicate NothingDropped(states: seq<State>, steps: seq<Step>)
    requires |states| == |steps| + 1
  {
    forall m: nat, k: nat, j: nat | StoreOf(states, steps, m, k) && k < j < |states| :: HeldAt(states, steps, m, j)
  }

  ghost predicate InstallsStorable(states: seq<State>, steps: seq<Step>)
    requires |states| == |steps| + 1
  {
    forall m: nat, k: nat | StoreOf(states, steps, m, k) :: StorableAt(states, steps, m)
  }

  /** In a run every installed change is stored, and stays, exactly when every installed commit was
      stored under an unused id, or under one that already named this very commit. */
  lemma ChangesAreNeverDropped(states: seq<State>, steps: seq<Step>, creator: ClientId)
    requires IsRun(states, steps, creator)
    ensures NothingDropped(states, steps) <==> InstallsStorable(states, steps)
  {
    forall m: nat, k: nat, j: nat | StoreOf(states, steps, m, k) && k < j < |states|
      ensures HeldAt(states, steps, m, j) <==> StorableAt(states, steps, m)
    {
      InstalledIsStored(states, steps, creator, m, k, j);
    }
    if NothingDropped(states, steps) {
      forall m: nat, k: nat | StoreOf(states, steps, m, k) ensures StorableAt(states, steps, m) {
        assert HeldAt(states, steps, m, k + 1);
      }
    }
  }

  // ---- no head is lost ----

  /** The commit is the head or one of its ancestors. */
  ghost predicate Kept(s: State, x: CommitId) {
    Acyclic(s.commits) && s.head in s.commits && x in Reach(s.commits, s.head)
  }

  ghost predicate NothingLost(states: seq<State>) {
    forall i, j :: 0 <= i <= j < |states| ==> Kept(states[j], states[i].head)
  }

  /** Every installed commit fitted its parent when it was stored. */
  ghost predicate InstallsFit(states: seq<State>, steps: seq<Step>)
    requires |states| == |steps| + 1
  {
    forall m: nat, k: nat | StoreOf(states, steps, m, k) :: FitsAt(states, steps, m)
  }

  lemma KeptStaysKept(states: seq<State>, steps: seq<Step>, creator: ClientId, i: nat, j: nat)
    requires IsRun(states, steps, creator) && InstallsFit(states, steps) && i <= j < |steps|
    requires Kept(states[j], states[i].head)
    ensures Kept(states[j + 1], states[i].head)
  {
    var s, t, x := states[j], states[j + 1], states[i].head;
    RunKeepsInv(states, steps, creator, j, j);
    RunKeepsInv(states, steps, creator, j, j + 1);
    assert Enabled(s, steps[j]) && t == Apply(s, steps[j]);
    RunKeepsReach(states, steps, creator, j, j + 1, s.head);
    if Installs(s, steps[j]) {
      var m := StoreExists(states, steps, creator, steps[j].c, j);
      assert StoreOf(states, steps, m, j);
      StoreDecides(states, steps, creator, m, j);
      ReachIsTransitive(t.commits, t.head, s.head);
    }
  }

  lemma HeadIsKept(s: State)
    requires Inv(s)
    ensures Kept(s, s.head)
  {
    ReachStep(s.commits, s.head, s.head);
  }

  lemma {:induction false} FittingKeepsHeads(states: seq<State>, steps: seq<Step>, creator: ClientId, i: nat, j: nat)
    requires IsRun(states, steps, creator) && InstallsFit(states, steps) && i <= j < |states|
    ensures Kept(states[j], states[i].head)
    decreases j
  {
    if i == j {
      RunKeepsInv(states, steps, creator, j, j);
      HeadIsKept(states[j]);
    } else {
      FittingKeepsHeads(states, steps, creator, i, j - 1);
      KeptStaysKept(states, steps, creator, i, j - 1);
    }
  }

  /** In a run every head stays the head or an ancestor of it forever after, exactly when every
      installed commit was stored under an unused id, or under one whose stored commit already had
      the expected parent among its ancestors. */
  lemma HeadsAreNeverLost(states: seq<State>, steps: seq<Step>, creator: ClientId)
    requires IsRun(states, steps, creator)
    ensures NothingLost(states) <==> InstallsFit(states, steps)
  {
    if InstallsFit(states, steps) {
      forall i, j | 0 <= i <= j < |states| ensures Kept(states[j], states[i].head) {
        FittingKeepsHeads(states, steps, creator, i, j);
      }
    }
    if NothingLost(states) {
      NothingLostMeansFitting(states, steps, creator);
    }
  }

  lemma NothingLostMeansFitting(states: seq<State>, steps: seq<Step>, creator: ClientId)
    requires IsRun(states, steps, creator) && NothingLost(states)
    ensures InstallsFit(states, steps)
  {
    forall m: nat, k: nat | StoreOf(states, steps, m, k) ensures FitsAt(states, steps, m) {
      assert Kept(states[k + 1], states[k].head);
      StoreDecides(states, steps, creator, m, k);
    }
  }

  lemma StorableFits(h: Commits, id: CommitId, commit: Commit)
    requires Acyclic(h) && ParentsStored(h, commit) && commit.parent.Some? && Storable(h, id, commit)
    ensures Fits(h, id, commit.parent.value)
  {
    if id in h {
      var p := commit.parent.value;
      assert HasParent(h, id, p);
      ReachStep(h, p, p);
      ReachStep(h, id, p);
    }
  }

  /** A run that drops no change loses no head; `SameSecondChangeIsDropped` shows that the converse
      fails. */
  lemma NothingDroppedNothingLost(states: seq<State>, steps: seq<Step>, creator: ClientId)
    requires IsRun(states, steps, creator) && NothingDropped(states, steps)
    ensures InstallsFit(states, steps) && NothingLost(states)
  {
    ChangesAreNeverDropped(states, steps, creator);
    forall m: nat, k: nat | StoreOf(states, steps, m, k) ensures FitsAt(states, steps, m) {
      assert Enabled(states[m], steps[m]);
      RunKeepsInv(states, steps, creator, m, m);
      StorableFits(states[m].commits, steps[m].id, steps[m].commit);
    }
    HeadsAreNeverLost(states, steps, creator);
  }

  /** Whatever ids are used, the head always names a stored commit of an acyclic, complete history. */
  lemma HeadIsAlwaysStored(states: seq<State>, steps: seq<Step>, creator: ClientId, j: nat)
    requires IsRun(states, steps, creator) && j < |states|
    ensures Acyclic(states[j].commits) && Complete(states[j].commits) && states[j].head in states[j].commits
  {
    RunKeepsInv(states, steps, creator, j, j);
  }

  // ---- the head and its earlier values ----

  ghost predicate NeverReturns(states: seq<State>) {
    forall i, j, k :: 0 <= i <= j <= k < |states| && states[i].head == states[k].head ==> states[j].head == states[i].head
  }

  predicate WasHead(s: State, x: CommitId) {
    exists k :: 0 <= k < |s.heads| && s.heads[k].commit == x
  }

  /** No install puts back a commit that was the head before and is not now. */
  predicate InstallsNothingOld(states: seq<State>, steps: seq<Step>)
    requires |states| == |steps| + 1
  {
    forall k: nat | k < |steps| && Installs(states[k], steps[k]) ::
      var n := ClientOf(states[k], steps[k].c).commit; n == states[k].head || !WasHead(states[k], n)
  }

  lemma {:induction false} LoggedWasHead(states: seq<State>, steps: seq<Step>, creator: ClientId, j: nat, x: CommitId)
    requires IsRun(states, steps, creator) && j < |states|
    ensures WasHead(states[j], x) <==> exists i :: 0 <= i <= j && states[i].head == x
    decreases j
  {
    var s := states[j];
    if j == 0 {
      assert s.heads[0].commit == s.head;
    } else {
      LoggedWasHead(states, steps, creator, j - 1, x);
      LogGrows(states[j - 1], steps[j - 1], x);
      RunKeepsInv(states, steps, creator, j, j);
      if i :| 0 <= i <= j && states[i].head == x && i < j {
        assert 0 <= i <= j - 1;
      }
    }
  }

  lemma LogGrows(s: State, step: Step, x: CommitId)
    requires Enabled(s, step)
    ensures WasHead(Apply(s, step), x) <==> WasHead(s, x) || (Installs(s, step) && Apply(s, step).head == x)
  {
    var t := Apply(s, step);
    if Installs(s, step) {
      assert t.heads[|s.heads|].commit == t.head;
      assert forall k :: 0 <= k < |s.heads| ==> t.heads[k] == s.heads[k];
    }
  }

  /** The head returns to an earlier value exactly when some install puts one back. */
  lemma HeadReturnsExactly(states: seq<State>, steps: seq<Step>, creator: ClientId)
    requires IsRun(states, steps, creator)
    ensures NeverReturns(states) <==> InstallsNothingOld(states, steps)
  {
    if NeverReturns(states) {
      forall k: nat | k < |steps| && Installs(states[k], steps[k])
        ensures var n := ClientOf(states[k], steps[k].c).commit; n == states[k].head || !WasHead(states[k], n)
      {
        var n := ClientOf(states[k], steps[k].c).commit;
        assert states[k + 1] == Apply(states[k], steps[k]) && states[k + 1].head == n;
        LoggedWasHead(states, steps, creator, k, n);
      }
    }
    if InstallsNothingOld(states, steps) {
      forall i, j, k | 0 <= i <= j <= k < |states| && states[i].head == states[k].head
        ensures states[j].head == states[i].head
      {
        NothingOldNeverReturns(states, steps, creator, i, j, k);
      }
    }
  }

  lemma {:induction false} NothingOldNeverReturns(states: seq<State>, steps: seq<Step>, creator: ClientId,
                                                  i: nat, j: nat, k: nat)
    requires IsRun(states, steps, creator) && InstallsNothingOld(states, steps)
    requires i <= j <= k < |states| && states[i].head == states[k].head
    ensures states[j].head == states[i].head
    decreases k
  {
    if j < k {
      assert states[k] == Apply(states[k - 1], steps[k - 1]);
      LoggedWasHead(states, steps, creator, k - 1, states[i].head);
      NothingOldNeverReturns(states, steps, creator, i, j, k - 1);
    }
  }

  /** When every installed commit fits, the head never returns to a commit it has left. */
  lemma HeadNeverReturns(states: seq<State>, steps: seq<Step>, creator: ClientId)
    requires IsRun(states, steps, creator) && InstallsFit(states, steps)
    ensures NeverReturns(states)
  {
    forall i, j, k | 0 <= i <= j <= k < |states| && states[i].head == states[k].head
      ensures states[j].head == states[i].head
    {
      FittingKeepsHeads(states, steps, creator, i, j);
      FittingKeepsHeads(states, steps, creator, j, k);
      RunKeepsInv(states, steps, creator, j, j);
      RunKeepsReach(states, steps, creator, j, k, states[j].head);
      ReachIsAntisymmetric(states[k].commits, states[k].head, states[j].head);
    }
  }

  // ---- ids used again ----

  /** The commit of seafile_change_repo_passwd: the root stays, the time is in whole seconds. */
  function PasswordDraft(rootId: string, user: string, now: int): Draft {
    Draft(rootId, seq(40, _ => '0'), user, "Changed library password", now)
  }

  const NO_FAILURE := DbRun(true, true, true, true)

  /** Read, store and update by one client. */
  function Attempt(s: State, c: ClientId, id: CommitId, ctime: int, body: string): State
    requires ClientOf(s, c).Idle?
  {
    var s1 := Apply(s, Read(c));
    var s2 := Apply(s1, Store(c, id, Commit(ctime, Some(s.head), None, body)));
    Apply(s2, Update(c, NO_FAILURE))
  }

  /** Two password changes by one user within one second, whatever the hash: both are reported as
      installed, but the second was never stored, and nothing but the log of heads has changed.  No
      head is lost: the id is the parent of the second change and fits itself. */
  lemma SameSecondChangeIsDropped(s: State, c: ClientId, rootId: string, user: string, now: int,
                                  sha1: Draft -> CommitId, keys: string, keys': string)
    requires Inv(s) && ClientOf(s, c).Idle? && sha1(PasswordDraft(rootId, user, now)) !in s.commits
    ensures var id := sha1(PasswordDraft(rootId, user, now));
      var first := Attempt(s, c, id, now, keys);
      var second := Attempt(first, c, id, now, keys');
      && first.head == id && Holds(first.commits, id, Commit(now, Some(s.head), None, keys))
      && second.head == id && second.commits == first.commits
      && |second.heads| == |first.heads| + 1
      && Fits(first.commits, id, first.head)
      && !Storable(first.commits, id, Commit(now, Some(id), None, keys'))
      && !Holds(second.commits, id, Commit(now, Some(id), None, keys'))
  {
    var id := sha1(PasswordDraft(rootId, user, now));
    var commit := Commit(now, Some(s.head), None, keys);
    assert s.head in s.commits;
    AddKeepsHistory(s.commits, id, commit);
    ReachStep(Add(s.commits, id, commit), id, id);
  }

  /** The same contents again after somebody else's commit: the head goes back and that commit is lost. */
  lemma OldIdTakesTheHeadBack(s: State, c: ClientId, d: ClientId, id: CommitId, other: CommitId, now: int,
                              keys: string)
    requires Inv(s) && ClientOf(s, c).Idle? && ClientOf(s, d).Idle?
    requires id !in s.commits && other !in s.commits && id != other
    ensures var first := Attempt(s, c, id, now, keys);
      var second := Attempt(first, d, other, now, keys);
      var third := Attempt(second, c, id, now, keys);
      && second.head == other && third.head == id && third.commits == second.commits
      && !Kept(third, other)
  {
    var third := Attempt(Attempt(Attempt(s, c, id, now, keys), d, other, now, keys), c, id, now, keys);
    assert s.head in s.commits;
    assert third.commits[other].parent == Some(id) && id in third.commits;
    ChildIsNotKept(third, other);
  }

  lemma ChildIsNotKept(s: State, child: CommitId)
    requires child in s.commits && s.head in s.commits && s.commits[child].parent == Some(s.head) && child != s.head
    ensures !Kept(s, child)
  {
    if Kept(s, child) {
      assert HasParent(s.commits, child, s.head);
      ParentsRankLower(s.commits);
      AncestorsRankLower(s.commits, s.head, child);
    }
  }

  // ---- refusals ----

  /** A client that read the head at step r and is refused at step i for a mismatch, without
      having read again in between, lost to another client's install between the two. */
  lemma RefusalsAreDeserved(states: seq<State>, steps: seq<Step>, creator: ClientId, r: nat, i: nat)
    requires IsRun(states, steps, creator) && r < i < |steps|
    requires Mismatch(states[i], steps[i]) && steps[r] == Read(steps[i].c)
    requires forall k :: r < k < i ==> steps[k] != Read(steps[i].c)
    ensures exists k :: r < k < i && steps[k].c != steps[i].c && |states[k].heads| < |states[k + 1].heads|
  {
    var c := steps[i].c;
    RunKeepsInv(states, steps, creator, r, i);
    VersionIsKept(states, steps, creator, r, i);
    MismatchMeansSomeoneElse(states[i], steps[i]);
    var k := InstallBetween(states, steps, creator, r, i);
  }

  /** While the client has not read again, its version is the number of installs at its read. */
  lemma {:induction false} VersionIsKept(states: seq<State>, steps: seq<Step>, creator: ClientId, r: nat, i: nat)
    requires IsRun(states, steps, creator) && r < i <= |steps| && steps[r].Read?
    requires forall k :: r < k < i ==> steps[k] != steps[r]
    ensures var me := ClientOf(states[i], steps[r].c);
      me.Idle? || me.version == |states[r].heads|
    decreases i
  {
    if i > r + 1 {
      VersionIsKept(states, steps, creator, r, i - 1);
      assert steps[i - 1] != steps[r];
    }
  }

  /** The first install after step r was made by somebody else, as long as the client holds on. */
  lemma {:induction false} InstallBetween(states: seq<State>, steps: seq<Step>, creator: ClientId, r: nat, i: nat)
    returns (k: nat)
    requires IsRun(states, steps, creator) && r < i < |states| && steps[r].Read?
    requires |states[r].heads| < |states[i].heads| && !ClientOf(states[i], steps[r].c).Idle?
    requires forall k :: r < k < i ==> steps[k] != steps[r]
    ensures r < k < i && steps[k].c != steps[r].c && |states[k].heads| < |states[k + 1].heads|
    decreases i
  {
    assert Enabled(states[i - 1], steps[i - 1]) && states[i] == Apply(states[i - 1], steps[i - 1]);
    if |states[i - 1].heads| < |states[i].heads| {
      k := i - 1;
    } else {
      RunKeepsInv(states, steps, creator, i - 1, i);
      assert i - 1 > r;
      assert steps[i - 1] != steps[r];
      k := InstallBetween(states, steps, creator, r, i - 1);
    }
  }
}
