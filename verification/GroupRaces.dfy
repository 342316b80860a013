/** Removals that run as separate statements, interleaved with creations and with each other:
    exactly which interleavings break the path texts. */
module GroupRaces {
  import opened GroupPaths
  import opened GroupManager

  /** How far a removal has come: children checked, group row deleted. */
  datatype Remover = Idle | Checked(g: nat) | Dropped(g: nat)

  datatype State = State(t: Tables, removers: map<nat, Remover>)

  const START := State(EMPTY_TABLES, map[])

  function RemoverOf(s: State, c: nat): Remover {
    if c in s.removers then s.removers[c] else Idle
  }

  /** A creation is one transaction; a removal is three statements, each of which may fail. */
  datatype Step =
    | Creation(parent: int, run: CreateRun)
    | Check(c: nat, g: nat, ok: bool)
    | DropGroup(c: nat, ok: bool)
    | DropPath(c: nat, ok: bool)

  /** One step; a step its client is not ready for changes nothing. */
  function Next(s: State, step: Step): State {
    match step
    case Creation(parent, run) => s.(t := CreatedBy(s.t, parent, run).1)
    case Check(c, g, ok) =>
      if RemoverOf(s, c).Idle? && ok && !(exists h :: h in s.t.groups && s.t.groups[h] == g)
      then s.(removers := s.removers[c := Checked(g)])
      else s
    case DropGroup(c, ok) =>
      if RemoverOf(s, c).Checked?
      then
        var g := RemoverOf(s, c).g;
        State(if ok then s.t.(groups := s.t.groups - {g}) else s.t, s.removers[c := Dropped(g)])
      else s
    case DropPath(c, ok) =>
      if RemoverOf(s, c).Dropped?
      then
        var g := RemoverOf(s, c).g;
        State(if ok then s.t.(paths := s.t.paths - {g}) else s.t, s.removers[c := Idle])
      else s
  }

  function RunSteps(steps: seq<Step>): State {
    if steps == [] then START else Next(RunSteps(steps[..|steps| - 1]), steps[|steps| - 1])
  }

  /** The groups whose removal is between its two deletes. */
  function Halfway(s: State): set<nat> {
    set c | c in s.removers && s.removers[c].Dropped? :: s.removers[c].g
  }

  predicate IsHalfway(s: State, g: nat) {
    exists c :: c in s.removers && s.removers[c] == Dropped(g)
  }

  lemma HalfwayMembers(s: State, g: nat)
    ensures g in Halfway(s) <==> IsHalfway(s, g)
  {
    if g in Halfway(s) {
      var c :| c in s.removers && s.removers[c].Dropped? && s.removers[c].g == g;
      assert s.removers[c] == Dropped(g);
    }
  }

  /** The tables without the path rows that are about to be deleted. */
  function Settled(s: State): Tables {
    s.t.(paths := s.t.paths - Halfway(s))
  }

  /** The paths are right: those of removals underway do not count any more. */
  ghost predicate Right(s: State) {
    PathsSpellChains(Settled(s))
  }

  /** While the paths are right: path rows have used ids, and those about to go have no group row. */
  ghost predicate Inv(s: State) {
    && s.t.nextId > 0 && Right(s)
    && (forall g :: g in s.t.paths ==> g < s.t.nextId)
    && (forall g :: g in Halfway(s) && g in s.t.paths ==> g !in s.t.groups)
  }

  // ---- which steps are safe ----

  /** A structure row would be added by the transaction. */
  predicate AddsPath(t: Tables, parent: int, run: CreateRun) {
    && StatementsSucceed(run, parent) && run.commit
    && (parent == TOP || (parent > 0 && parent in t.paths))
  }

  /** A creation must not hang a group under one being removed, nor take the id of one; the group row
      must go only while the group has no child, and not be left behind; nor the path row, unless
      another removal of the group will still delete it. */
  predicate Safe(s: State, step: Step) {
    match step
    case Creation(parent, run) =>
      AddsPath(s.t, parent, run) ==> s.t.nextId !in Halfway(s) && (parent > 0 ==> parent !in Halfway(s))
    case Check(_, _, _) => true
    case DropGroup(c, ok) =>
      RemoverOf(s, c).Checked? ==>
        if ok then !HasChild(s.t, RemoverOf(s, c).g) else !Structured(s.t, RemoverOf(s, c).g)
    case DropPath(c, ok) =>
      RemoverOf(s, c).Dropped? ==>
        ok || RemoverOf(s, c).g !in s.t.paths || RemoverOf(s, c).g in Halfway(Next(s, step))
  }

  // ---- halfway groups, step by step ----

  lemma HalfwayAfterDropGroup(s: State, c: nat, ok: bool)
    requires RemoverOf(s, c).Checked?
    ensures Halfway(Next(s, DropGroup(c, ok))) == Halfway(s) + {RemoverOf(s, c).g}
  {
    var s', g := Next(s, DropGroup(c, ok)), RemoverOf(s, c).g;
    assert forall d :: d != c ==> (d in s'.removers <==> d in s.removers) && (d in s.removers ==> s'.removers[d] == s.removers[d]);
    forall x
      ensures x in Halfway(s') <==> x in Halfway(s) + {g}
    {
      HalfwayMembers(s, x);
      HalfwayMembers(s', x);
      assert s'.removers[c] == Dropped(g);
      if d :| d in s.removers && s.removers[d] == Dropped(x) {
        assert s'.removers[d] == Dropped(x);
      }
    }
  }

  lemma HalfwayAfterDropPath(s: State, c: nat, ok: bool)
    requires RemoverOf(s, c).Dropped?
    ensures var s', g := Next(s, DropPath(c, ok)), RemoverOf(s, c).g;
      && g in Halfway(s)
      && (Halfway(s') == Halfway(s) || Halfway(s') == Halfway(s) - {g})
  {
    var s', g := Next(s, DropPath(c, ok)), RemoverOf(s, c).g;
    HalfwayMembers(s, g);
    assert s.removers[c] == Dropped(g);
    forall x | x != g
      ensures x in Halfway(s') <==> x in Halfway(s)
    {
      HalfwayMembers(s, x);
      HalfwayMembers(s', x);
      if d :| d in s.removers && s.removers[d] == Dropped(x) {
        assert s'.removers[d] == Dropped(x);
      }
    }
    assert Halfway(s') == Halfway(s) || Halfway(s') == Halfway(s) - {g};
  }

  lemma HalfwayAfterCheck(s: State, c: nat, g: nat, ok: bool)
    ensures Halfway(Next(s, Check(c, g, ok))) == Halfway(s)
  {
    var s' := Next(s, Check(c, g, ok));
    forall x
      ensures x in Halfway(s') <==> x in Halfway(s)
    {
      HalfwayMembers(s, x);
      HalfwayMembers(s', x);
      if d :| d in s.removers && s.removers[d] == Dropped(x) {
        assert s'.removers[d] == Dropped(x);
      }
    }
  }

  // ---- each kind of step ----

  lemma CreateStep(s: State, parent: int, run: CreateRun)
    requires Inv(s)
    ensures var s' := Next(s, Creation(parent, run));
      if Safe(s, Creation(parent, run)) then Inv(s') else !Right(s')
  {
    if !AddsPath(s.t, parent, run) {
      UnstructuredCreation(s, parent, run);
    } else if Safe(s, Creation(parent, run)) {
      SafeCreation(s, parent, run);
    } else {
      UnsafeCreation(s, parent, run);
    }
  }

  lemma UpdateApart<V>(m: map<nat, V>, k: nat, v: V, gone: set<nat>)
    requires k !in gone
    ensures m[k := v] - gone == (m - gone)[k := v]
  {
  }

  lemma CreationCommutes(t: Tables, gone: set<nat>, parent: int, run: CreateRun)
    requires AddsPath(t, parent, run) && t.nextId !in gone && (parent > 0 ==> parent !in gone)
    ensures var u := CreatedBy(t, parent, run).1;
      u.(paths := u.paths - gone) == CreatedBy(t.(paths := t.paths - gone), parent, run).1
  {
    var text := if parent == TOP then Decimal(t.nextId) else t.paths[parent] + ", " + Decimal(t.nextId);
    UpdateApart(t.paths, t.nextId, text, gone);
  }

  lemma SafeCreation(s: State, parent: int, run: CreateRun)
    requires Inv(s) && AddsPath(s.t, parent, run) && Safe(s, Creation(parent, run))
    ensures Inv(Next(s, Creation(parent, run)))
  {
    var s' := Next(s, Creation(parent, run));
    assert Halfway(s') == Halfway(s);
    CreationByKeepsPaths(Settled(s), parent, run);
    CreationCommutes(s.t, Halfway(s), parent, run);
    assert Right(s');
  }

  lemma UnsafeCreation(s: State, parent: int, run: CreateRun)
    requires Inv(s) && AddsPath(s.t, parent, run) && !Safe(s, Creation(parent, run))
    ensures !Right(Next(s, Creation(parent, run)))
  {
    var s', id := Next(s, Creation(parent, run)), s.t.nextId;
    assert Halfway(s') == Halfway(s);
    assert s'.t.groups == s.t.groups[id := parent];
    assert Structured(Settled(s'), id);
    if id !in Halfway(s) {
      assert !Structured(Settled(s'), parent);
    }
  }

  /** Creations that add no path row are seen alike with and without the rows about to go. */
  lemma UnstructuredCreation(s: State, parent: int, run: CreateRun)
    requires Inv(s) && !AddsPath(s.t, parent, run)
    ensures Inv(Next(s, Creation(parent, run)))
  {
    var s', t := Next(s, Creation(parent, run)), Settled(s);
    assert Halfway(s') == Halfway(s);
    CreationByKeepsPaths(t, parent, run);
    assert parent > 0 && parent in t.paths ==> parent in s.t.paths;
    assert Settled(s') == CreatedBy(t, parent, run).1;
  }

  lemma DropGroupStep(s: State, c: nat, ok: bool)
    requires Inv(s) && RemoverOf(s, c).Checked?
    ensures var s' := Next(s, DropGroup(c, ok));
      if Safe(s, DropGroup(c, ok)) then Inv(s') else !Right(s')
  {
    var s', g := Next(s, DropGroup(c, ok)), RemoverOf(s, c).g;
    HalfwayAfterDropGroup(s, c, ok);
    if ok {
      GroupRowGoes(s, s', g);
    } else if Structured(s.t, g) {
      assert Structured(Settled(s'), g) && g !in Settled(s').paths;
    } else {
      assert !Structured(Settled(s), g);
      assert Settled(s').paths == Settled(s).paths;
    }
  }

  lemma GroupRowGoes(s: State, s': State, g: nat)
    requires Inv(s) && s'.t == s.t.(groups := s.t.groups - {g}) && Halfway(s') == Halfway(s) + {g}
    ensures if !HasChild(s.t, g) then Inv(s') else !Right(s')
  {
    var t := Settled(s);
    DroppingKeepsPaths(t, g);
    assert HasChild(t, g) <==> HasChild(s.t, g) by {
      assert forall h :: Structured(t, h) <==> Structured(s.t, h);
    }
    assert Settled(s').paths == t.paths - {g};
  }

  lemma DropPathStep(s: State, c: nat, ok: bool)
    requires Inv(s) && RemoverOf(s, c).Dropped?
    ensures var s' := Next(s, DropPath(c, ok));
      if Safe(s, DropPath(c, ok)) then Inv(s') else !Right(s')
  {
    var s', g := Next(s, DropPath(c, ok)), RemoverOf(s, c).g;
    HalfwayAfterDropPath(s, c, ok);
    if Safe(s, DropPath(c, ok)) {
      assert Settled(s').paths == Settled(s).paths;
      assert Settled(s') == Settled(s);
    } else {
      assert g in Settled(s').paths && !Structured(Settled(s'), g);
    }
  }

  /** From a right state a step leads to a right state exactly when it is safe. */
  lemma StepIsRightExactly(s: State, step: Step)
    requires Inv(s)
    ensures if Safe(s, step) then Inv(Next(s, step)) else !Right(Next(s, step))
  {
    match step
    case Creation(parent, run) => CreateStep(s, parent, run);
    case Check(c, g, ok) => HalfwayAfterCheck(s, c, g, ok);
    case DropGroup(c, ok) => if RemoverOf(s, c).Checked? { DropGroupStep(s, c, ok); }
    case DropPath(c, ok) => if RemoverOf(s, c).Dropped? { DropPathStep(s, c, ok); }
  }

  // ---- whole runs ----

  predicate AllSafe(steps: seq<Step>) {
    forall i :: 0 <= i < |steps| ==> Safe(RunSteps(steps[..i]), steps[i])
  }

  ghost predicate AlwaysRight(steps: seq<Step>) {
    forall i :: 0 <= i <= |steps| ==> Right(RunSteps(steps[..i]))
  }

  lemma StartIsRight()
    ensures Inv(START)
  {
    assert Halfway(START) == {};
    assert Settled(START) == EMPTY_TABLES;
  }

  lemma {:induction false} SafeRunsKeepInv(steps: seq<Step>, i: nat)
    requires i <= |steps| && AllSafe(steps)
    ensures Inv(RunSteps(steps[..i]))
  {
    if i == 0 {
      StartIsRight();
    } else {
      SafeRunsKeepInv(steps, i - 1);
      assert steps[..i][..i - 1] == steps[..i - 1];
      StepIsRightExactly(RunSteps(steps[..i - 1]), steps[i - 1]);
    }
  }

  lemma {:induction false} RightRunsKeepInv(steps: seq<Step>, i: nat)
    requires i <= |steps| && AlwaysRight(steps)
    ensures Inv(RunSteps(steps[..i]))
  {
    if i == 0 {
      StartIsRight();
    } else {
      RightRunsKeepInv(steps, i - 1);
      RightStepIsSafe(steps, i - 1);
    }
  }

  lemma RightStepIsSafe(steps: seq<Step>, i: nat)
    requires i < |steps| && AlwaysRight(steps) && Inv(RunSteps(steps[..i]))
    ensures Safe(RunSteps(steps[..i]), steps[i]) && Inv(RunSteps(steps[..i + 1]))
  {
    assert steps[..i + 1][..i] == steps[..i];
    assert Right(RunSteps(steps[..i + 1]));
    StepIsRightExactly(RunSteps(steps[..i]), steps[i]);
  }

  /** In any interleaving of creations and removals, statement by statement and with any of them
      failing, the paths are right all along exactly when every step is safe. */
  lemma RunsAreRightExactly(steps: seq<Step>)
    ensures AlwaysRight(steps) <==> AllSafe(steps)
  {
    if AllSafe(steps) {
      forall i | 0 <= i <= |steps| ensures Right(RunSteps(steps[..i])) {
        SafeRunsKeepInv(steps, i);
      }
    }
    if AlwaysRight(steps) {
      forall i | 0 <= i < |steps| ensures Safe(RunSteps(steps[..i]), steps[i]) {
        RightRunsKeepInv(steps, i);
        RightStepIsSafe(steps, i);
      }
    }
  }

  /** When no removal is underway, right means what it says of the tables themselves. */
  lemma RightAtRest(s: State)
    requires forall c :: c in s.removers ==> s.removers[c].Idle?
    ensures Right(s) <==> PathsSpellChains(s.t)
  {
    assert Halfway(s) == {};
    assert Settled(s) == s.t;
  }

  const ALL_WELL := CreateRun(true, true, true, true, true, true)

  /** A child created between the check and the deletes is left with a parent that is gone. */
  lemma ChildDuringRemoval()
    ensures var s := Next(Next(Next(Next(Next(START, Creation(TOP, ALL_WELL)), Check(0, 1, true)),
                                         Creation(1, ALL_WELL)), DropGroup(0, true)), DropPath(0, true));
      && s.removers == map[0 := Idle]
      && s.t.groups == map[2 := 1] && s.t.paths == map[2 := "1, 2"]
      && !PathsSpellChains(s.t)
  {
    var s1 := Next(START, Creation(TOP, ALL_WELL));
    assert s1.t.groups == map[1 := TOP] && s1.t.paths == map[1 := "1"];
    var s2 := Next(s1, Check(0, 1, true));
    assert s2 == State(s1.t, map[0 := Checked(1)]);
    var s3 := Next(s2, Creation(1, ALL_WELL));
    assert Decimal(2) == "2" && "1" + ", " + "2" == "1, 2";
    assert s3.t.groups == map[1 := TOP, 2 := 1] && s3.t.paths == map[1 := "1", 2 := "1, 2"];
    var s4 := Next(s3, DropGroup(0, true));
    assert s4.t.groups == map[2 := 1];
    var s5 := Next(s4, DropPath(0, true));
    assert Structured(s5.t, 2) && !Structured(s5.t, 1);
  }
}
