/** The MySQL connection pool and the wrappers that borrow from it.  The pool works under a lock,
    so each get and each release is one atomic step on its slots. */
module ConnPool {
  import opened Names

  // ---- the slots of the pool ----

  /** A pooled connection and its is_available flag. */
  datatype Slot = Slot(conn: nat, available: bool)

  predicate DistinctConns(slots: seq<Slot>) {
    forall i, j :: 0 <= i < j < |slots| ==> slots[i].conn != slots[j].conn
  }

  predicate AllBelow(slots: seq<Slot>, nextId: nat) {
    forall s :: s in slots ==> s.conn < nextId
  }

  /** The first available connection that answers a ping; |slots| when there is none. */
  function FirstUsable(slots: seq<Slot>, alive: set<nat>): (k: nat)
    ensures k <= |slots|
    ensures k < |slots| ==> slots[k].available && slots[k].conn in alive
    ensures forall i :: 0 <= i < k ==> !(slots[i].available && slots[i].conn in alive)
  {
    if slots == [] || (slots[0].available && slots[0].conn in alive) then 0
    else 1 + FirstUsable(slots[1..], alive)
  }

  function IndexOf(slots: seq<Slot>, conn: nat): (k: nat)
    ensures k <= |slots|
    ensures k < |slots| ==> slots[k].conn == conn
    ensures forall i :: 0 <= i < k ==> slots[i].conn != conn
  {
    if slots == [] || slots[0].conn == conn then 0 else 1 + IndexOf(slots[1..], conn)
  }

  datatype Grant = Grant(conn: Option<nat>, slots: seq<Slot>)

  /** What get_connection does to the slots; a connection nextId now would be number nextId. */
  function Get(slots: seq<Slot>, limit: nat, alive: set<nat>, canOpen: bool, nextId: nat): Grant {
    var k := FirstUsable(slots, alive);
    if k < |slots| then Grant(Some(slots[k].conn), slots[k := Slot(slots[k].conn, false)])
    else if |slots| < limit && canOpen then Grant(Some(nextId), slots + [Slot(nextId, false)])
    else Grant(None, slots)
  }

  /** What release_connection does to the slots. */
  function Released(slots: seq<Slot>, conn: nat, needClose: bool): seq<Slot> {
    var k := IndexOf(slots, conn);
    if k == |slots| then slots
    else if needClose then slots[..k] + slots[k + 1..]
    else slots[k := Slot(conn, true)]
  }

  /** A granted connection was free or is new, and is the only slot that changes. */
  lemma GrantTakesAFreeSlot(slots: seq<Slot>, limit: nat, alive: set<nat>, canOpen: bool, nextId: nat)
    requires DistinctConns(slots) && AllBelow(slots, nextId) && |slots| <= limit
    ensures var g := Get(slots, limit, alive, canOpen, nextId);
      && DistinctConns(g.slots)
      && |g.slots| <= limit
      && (g.conn == None ==> g.slots == slots)
      && (g.conn.Some? ==>
            && (g.conn.value == nextId || Slot(g.conn.value, true) in slots)
            && Slot(g.conn.value, false) !in slots
            && forall s :: s in g.slots <==>
                 s == Slot(g.conn.value, false) || (s in slots && s.conn != g.conn.value))
  {
    var g := Get(slots, limit, alive, canOpen, nextId);
    var k := FirstUsable(slots, alive);
    if k < |slots| {
      var taken := Slot(slots[k].conn, false);
      assert g.slots[k] == taken;
      forall s
        ensures s in g.slots <==> s == taken || (s in slots && s.conn != taken.conn)
      {
        if s in slots && s.conn != taken.conn {
          var i :| 0 <= i < |slots| && slots[i] == s;
          assert g.slots[i] == s;
        }
      }
    }
  }

  predicate Usable(slot: Slot, alive: set<nat>) {
    slot.available && slot.conn in alive
  }

  /** A connection is granted exactly when a free one answers, or another may and can be opened; a free
      one that answers is always preferred. */
  lemma GrantsExactly(slots: seq<Slot>, limit: nat, alive: set<nat>, canOpen: bool, nextId: nat)
    requires AllBelow(slots, nextId)
    ensures var g := Get(slots, limit, alive, canOpen, nextId);
      if exists slot :: slot in slots && Usable(slot, alive)
      then g.conn.Some? && g.conn.value < nextId && |g.slots| == |slots| && Slot(g.conn.value, true) in slots && g.conn.value in alive
      else if |slots| < limit && canOpen then g.conn == Some(nextId) && g.slots == slots + [Slot(nextId, false)]
      else g.conn == None && g.slots == slots
  {
    var k := FirstUsable(slots, alive);
    if slot :| slot in slots && Usable(slot, alive) {
      var i :| 0 <= i < |slots| && slots[i] == slot;
      assert k <= i;
      assert slots[k] in slots;
    } else if k < |slots| {
      assert Usable(slots[k], alive);
    }
  }

  lemma GrantKeepsPool(slots: seq<Slot>, limit: nat, alive: set<nat>, canOpen: bool, nextId: nat)
    requires DistinctConns(slots) && AllBelow(slots, nextId) && |slots| <= limit
    ensures var g := Get(slots, limit, alive, canOpen, nextId);
      && DistinctConns(g.slots) && |g.slots| <= limit
      && AllBelow(g.slots, if g.conn == Some(nextId) then nextId + 1 else nextId)
  {
    GrantTakesAFreeSlot(slots, limit, alive, canOpen, nextId);
  }

  /** Releasing touches one slot: it becomes available, or it is gone. */
  lemma ReleaseFreesOneSlot(slots: seq<Slot>, conn: nat, needClose: bool)
    requires DistinctConns(slots) && Slot(conn, false) in slots
    ensures var r := Released(slots, conn, needClose);
      && DistinctConns(r)
      && |r| <= |slots|
      && forall s :: s in r <==>
           (s in slots && s.conn != conn) || (!needClose && s == Slot(conn, true))
  {
    var k, r := IndexOf(slots, conn), Released(slots, conn, needClose);
    assert k < |slots|;
    ElsewhereIsEveryOther(slots, k);
    if !needClose {
      assert r == slots[..k] + [Slot(conn, true)] + slots[k + 1..];
    }
  }

  lemma ElsewhereIsEveryOther(slots: seq<Slot>, k: nat)
    requires DistinctConns(slots) && k < |slots|
    ensures forall s :: s in slots && s.conn != slots[k].conn <==> s in slots[..k] || s in slots[k + 1..]
  {
  }

  lemma ReleaseKeepsPool(slots: seq<Slot>, conn: nat, needClose: bool, nextId: nat)
    requires DistinctConns(slots) && AllBelow(slots, nextId) && Slot(conn, false) in slots
    ensures var r := Released(slots, conn, needClose);
      DistinctConns(r) && AllBelow(r, nextId) && |r| <= |slots|
  {
    ReleaseFreesOneSlot(slots, conn, needClose);
    forall s | s in Released(slots, conn, needClose) ensures s.conn < nextId {
      assert s in slots || s == Slot(conn, true);
    }
  }

  // ---- interleaved clients ----

  /** Where a thread stands in the wrapper it is executing. */
  datatype Client =
    | Idle
    | Statement(conn: nat)
    | StatementDone(conn: nat, failed: bool)
    | Beginning(conn: nat)
    | BeginFailed(conn: nat)
    | Transaction(conn: nat, needClose: bool)

  /** broken: the connections on which some statement, BEGIN, COMMIT or ROLLBACK has failed. */
  datatype State = State(slots: seq<Slot>, nextId: nat, clients: map<nat, Client>, broken: set<nat>)

  const START := State([], 0, map[], {})

  datatype Step =
    | GetForStatement(c: nat, alive: set<nat>, canOpen: bool)
    | GetForTransaction(c: nat, alive: set<nat>, canOpen: bool)
    | RunStatement(c: nat, ok: bool)
    | ReleaseStatement(c: nat)
    | RunBegin(c: nat, ok: bool)
    | ReleaseFailedBegin(c: nat)
    | RunInTransaction(c: nat, ok: bool)   // a query, COMMIT or ROLLBACK
    | CloseTransaction(c: nat)

  function ClientOf(s: State, c: nat): Client {
    if c in s.clients then s.clients[c] else Idle
  }

  function Granted(s: State, limit: nat, c: nat, alive: set<nat>, canOpen: bool, inTransaction: bool): State {
    var g := Get(s.slots, limit, alive, canOpen, s.nextId);
    match g.conn
    case None => s
    case Some(conn) =>
      var client := if inTransaction then Beginning(conn) else Statement(conn);
      var nextId := if conn == s.nextId then conn + 1 else s.nextId;
      s.(slots := g.slots, nextId := nextId, clients := s.clients[c := client])
  }

  /** A statement ran on the client's connection. */
  function Ran(s: State, c: nat, ok: bool, conn: nat, client: Client): State {
    s.(clients := s.clients[c := client], broken := if ok then s.broken else s.broken + {conn})
  }

  function GaveBack(s: State, c: nat, conn: nat, needClose: bool): State {
    s.(slots := Released(s.slots, conn, needClose), clients := s.clients[c := Idle])
  }

  /** One atomic step; a step its client is not ready for changes nothing. */
  function Next(s: State, limit: nat, step: Step): State {
    match (step, ClientOf(s, step.c))
    case (GetForStatement(c, alive, canOpen), Idle) => Granted(s, limit, c, alive, canOpen, false)
    case (GetForTransaction(c, alive, canOpen), Idle) => Granted(s, limit, c, alive, canOpen, true)
    case (RunStatement(c, ok), Statement(conn)) => Ran(s, c, ok, conn, StatementDone(conn, !ok))
    case (ReleaseStatement(c), StatementDone(conn, failed)) => GaveBack(s, c, conn, failed)
    case (RunBegin(c, ok), Beginning(conn)) =>
      Ran(s, c, ok, conn, if ok then Transaction(conn, false) else BeginFailed(conn))
    case (ReleaseFailedBegin(c), BeginFailed(conn)) => GaveBack(s, c, conn, true)
    case (RunInTransaction(c, ok), Transaction(conn, needClose)) =>
      Ran(s, c, ok, conn, Transaction(conn, needClose || !ok))
    case (CloseTransaction(c), Transaction(conn, needClose)) => GaveBack(s, c, conn, needClose)
    case _ => s
  }

  /** Any interleaving of any number of clients. */
  function Run(limit: nat, steps: seq<Step>): State {
    if steps == [] then START else Next(Run(limit, steps[..|steps| - 1]), limit, steps[|steps| - 1])
  }

  /** The connection of this client will be closed when it is released. */
  predicate Doomed(client: Client) {
    match client
    case StatementDone(_, failed) => failed
    case BeginFailed(_) => true
    case Transaction(_, needClose) => needClose
    case _ => false
  }

  ghost predicate PoolOk(s: State, limit: nat) {
    |s.slots| <= limit && DistinctConns(s.slots) && AllBelow(s.slots, s.nextId)
    && forall x :: x in s.broken ==> x < s.nextId
  }

  /** What a client holds is a taken slot, and no other client holds it; if it broke, it is doomed. */
  ghost predicate HoldingOk(s: State) {
    && (forall c :: ClientOf(s, c) != Idle ==> Slot(ClientOf(s, c).conn, false) in s.slots)
    && (forall c, d :: c != d && ClientOf(s, c) != Idle && ClientOf(s, d) != Idle
          ==> ClientOf(s, c).conn != ClientOf(s, d).conn)
    && (forall c :: ClientOf(s, c) != Idle && ClientOf(s, c).conn in s.broken ==> Doomed(ClientOf(s, c)))
  }

  ghost predicate Held(s: State, conn: nat) {
    exists c :: ClientOf(s, c) != Idle && ClientOf(s, c).conn == conn
  }

  /** Taken slots are held by someone, and free ones never broke. */
  ghost predicate SlotsOk(s: State) {
    forall slot :: slot in s.slots ==>
      if slot.available then slot.conn !in s.broken else Held(s, slot.conn)
  }

  ghost predicate Inv(s: State, limit: nat) {
    PoolOk(s, limit) && HoldingOk(s) && SlotsOk(s)
  }

  lemma GrantKeepsInv(s: State, limit: nat, c: nat, alive: set<nat>, canOpen: bool, inTransaction: bool)
    requires Inv(s, limit) && ClientOf(s, c) == Idle
    ensures Inv(Granted(s, limit, c, alive, canOpen, inTransaction), limit)
  {
    GrantTakesAFreeSlot(s.slots, limit, alive, canOpen, s.nextId);
    var t := Granted(s, limit, c, alive, canOpen, inTransaction);
    if Get(s.slots, limit, alive, canOpen, s.nextId).conn.Some? {
      assert forall d :: d != c ==> ClientOf(t, d) == ClientOf(s, d);
      SlotsStayHeld(s, t, c);
    }
  }

  lemma SlotsStayHeld(s: State, t: State, c: nat)
    requires SlotsOk(s) && ClientOf(t, c) != Idle && t.broken == s.broken
    requires forall d :: d != c ==> ClientOf(t, d) == ClientOf(s, d)
    requires ClientOf(s, c) == Idle
    requires forall slot :: slot in t.slots ==> slot in s.slots || slot == Slot(ClientOf(t, c).conn, false)
    ensures SlotsOk(t)
  {
  }

  lemma RanKeepsInv(s: State, limit: nat, c: nat, ok: bool, client: Client)
    requires Inv(s, limit) && ClientOf(s, c) != Idle && client != Idle
    requires client.conn == ClientOf(s, c).conn
    requires !ok || Doomed(ClientOf(s, c)) ==> Doomed(client)
    ensures Inv(Ran(s, c, ok, client.conn, client), limit)
  {
    var t := Ran(s, c, ok, client.conn, client);
    assert forall d :: d != c ==> ClientOf(t, d) == ClientOf(s, d);
    forall slot | slot in t.slots
      ensures if slot.available then slot.conn !in t.broken else Held(t, slot.conn)
    {
      if slot.available {
        assert Slot(client.conn, false) in s.slots;
        OneSlotEach(s.slots, slot, Slot(client.conn, false));
      } else {
        var d :| ClientOf(s, d) != Idle && ClientOf(s, d).conn == slot.conn;
        assert ClientOf(t, d).conn == slot.conn;
      }
    }
  }

  lemma OneSlotEach(slots: seq<Slot>, a: Slot, b: Slot)
    requires DistinctConns(slots) && a in slots && b in slots
    ensures a.conn == b.conn ==> a == b
  {
  }

  lemma GaveBackKeepsInv(s: State, limit: nat, c: nat)
    requires Inv(s, limit) && ClientOf(s, c) != Idle
    ensures Inv(GaveBack(s, c, ClientOf(s, c).conn, Doomed(ClientOf(s, c))), limit)
  {
    var conn := ClientOf(s, c).conn;
    var t := GaveBack(s, c, conn, Doomed(ClientOf(s, c)));
    ReleaseFreesOneSlot(s.slots, conn, Doomed(ClientOf(s, c)));
    assert forall d :: d != c ==> ClientOf(t, d) == ClientOf(s, d);
    forall slot | slot in t.slots && !slot.available
      ensures Held(t, slot.conn)
    {
      var d :| ClientOf(s, d) != Idle && ClientOf(s, d).conn == slot.conn;
      assert ClientOf(t, d).conn == slot.conn;
    }
  }

  lemma NextKeepsInv(s: State, limit: nat, step: Step)
    requires Inv(s, limit)
    ensures Inv(Next(s, limit, step), limit)
  {
    match (step, ClientOf(s, step.c))
    case (GetForStatement(c, alive, canOpen), Idle) => GrantKeepsInv(s, limit, c, alive, canOpen, false);
    case (GetForTransaction(c, alive, canOpen), Idle) => GrantKeepsInv(s, limit, c, alive, canOpen, true);
    case (RunStatement(c, ok), Statement(conn)) => RanKeepsInv(s, limit, c, ok, StatementDone(conn, !ok));
    case (ReleaseStatement(c), StatementDone(_, _)) => GaveBackKeepsInv(s, limit, c);
    case (RunBegin(c, ok), Beginning(conn)) =>
      RanKeepsInv(s, limit, c, ok, if ok then Transaction(conn, false) else BeginFailed(conn));
    case (ReleaseFailedBegin(c), BeginFailed(_)) => GaveBackKeepsInv(s, limit, c);
    case (RunInTransaction(c, ok), Transaction(conn, needClose)) =>
      RanKeepsInv(s, limit, c, ok, Transaction(conn, needClose || !ok));
    case (CloseTransaction(c), Transaction(_, _)) => GaveBackKeepsInv(s, limit, c);
    case _ =>
  }

  lemma {:induction false} EveryRunKeepsInv(limit: nat, steps: seq<Step>)
    ensures Inv(Run(limit, steps), limit)
  {
    if steps != [] {
      EveryRunKeepsInv(limit, steps[..|steps| - 1]);
      NextKeepsInv(Run(limit, steps[..|steps| - 1]), limit, steps[|steps| - 1]);
    }
  }

  // ---- the promises of the pool ----

  lemma PoolStaysWithinLimit(limit: nat, steps: seq<Step>)
    ensures |Run(limit, steps).slots| <= limit
  {
  }

  lemma NoConnectionIsShared(limit: nat, steps: seq<Step>, c: nat, d: nat)
    requires c != d
    requires ClientOf(Run(limit, steps), c) != Idle && ClientOf(Run(limit, steps), d) != Idle
    ensures ClientOf(Run(limit, steps), c).conn != ClientOf(Run(limit, steps), d).conn
  {
    EveryRunKeepsInv(limit, steps);
  }

  lemma NextKeepsBroken(s: State, limit: nat, step: Step)
    ensures s.broken <= Next(s, limit, step).broken
  {
  }

  lemma RunStep(limit: nat, steps: seq<Step>, step: Step)
    ensures Run(limit, steps + [step]) == Next(Run(limit, steps), limit, step)
  {
    assert (steps + [step])[..|steps|] == steps;
  }

  lemma {:induction false} BrokenStaysBroken(limit: nat, steps: seq<Step>, more: seq<Step>)
    ensures Run(limit, steps).broken <= Run(limit, steps + more).broken
  {
    if more == [] {
      assert steps + more == steps;
    } else {
      var front, last := more[..|more| - 1], more[|more| - 1];
      assert steps + more == (steps + front) + [last];
      BrokenStaysBroken(limit, steps, front);
      RunStep(limit, steps + front, last);
      NextKeepsBroken(Run(limit, steps + front), limit, last);
    }
  }

  /** A connection on which anything failed is never handed out again, however long the run. */
  lemma FailedIsNeverHandedOut(limit: nat, steps: seq<Step>, more: seq<Step>, step: Step)
    requires ClientOf(Run(limit, steps + more), step.c) == Idle
    requires ClientOf(Next(Run(limit, steps + more), limit, step), step.c) != Idle
    ensures ClientOf(Next(Run(limit, steps + more), limit, step), step.c).conn !in Run(limit, steps).broken
  {
    var s := Run(limit, steps + more);
    EveryRunKeepsInv(limit, steps + more);
    BrokenStaysBroken(limit, steps, more);
    GrantTakesAFreeSlot(s.slots, limit, step.alive, step.canOpen, s.nextId);
  }

  /** In every run, an idle client that asks is served exactly when a free connection answers, or the
      pool is below its limit and a new one can be opened. */
  lemma ServedExactly(limit: nat, steps: seq<Step>, step: Step)
    requires step.GetForStatement? || step.GetForTransaction?
    requires ClientOf(Run(limit, steps), step.c) == Idle
    ensures var s := Run(limit, steps);
      ClientOf(Next(s, limit, step), step.c) != Idle <==>
        (|| (exists slot :: slot in s.slots && Usable(slot, step.alive))
         || (|s.slots| < limit && step.canOpen))
  {
    var s := Run(limit, steps);
    EveryRunKeepsInv(limit, steps);
    GrantsExactly(s.slots, limit, step.alive, step.canOpen, s.nextId);
  }

  /** Nothing leaks: when every client is idle again, every pooled connection is free and sound. */
  lemma IdlePoolIsFree(limit: nat, steps: seq<Step>)
    requires forall c :: ClientOf(Run(limit, steps), c) == Idle
    ensures forall slot :: slot in Run(limit, steps).slots ==>
              slot.available && slot.conn !in Run(limit, steps).broken
  {
    EveryRunKeepsInv(limit, steps);
  }

  // ---- the code ----

  class DBConnection {
    const id: nat
    var isAvailable: bool

    constructor (id: nat)
      ensures this.id == id && !isAvailable
    {
      this.id, isAvailable := id, false;
    }
  }

  ghost function SlotsOf(conns: seq<DBConnection>): (slots: seq<Slot>)
    reads conns
    ensures |slots| == |conns|
    ensures forall i :: 0 <= i < |conns| ==> slots[i] == Slot(conns[i].id, conns[i].isAvailable)
  {
    seq(|conns|, i requires 0 <= i < |conns| reads conns => Slot(conns[i].id, conns[i].isAvailable))
  }

  class DBConnPool {
    const maxConnections: nat
    var connections: seq<DBConnection>
    var nextId: nat

    ghost predicate Valid()
      reads this, connections
    {
      && maxConnections > 0
      && |connections| <= maxConnections
      && DistinctConns(SlotsOf(connections))
      && AllBelow(SlotsOf(connections), nextId)
    }

    constructor (maxConnections: nat)
      requires maxConnections > 0
      ensures Valid() && connections == [] && nextId == 0 && this.maxConnections == maxConnections
    {
      this.maxConnections, connections, nextId := maxConnections, [], 0;
    }

    /** alive: the connections that answer a ping; canOpen: whether MySQL accepts a new one. */
    method GetConnection(alive: set<nat>, canOpen: bool) returns (conn: DBConnection?)
      requires Valid()
      modifies this, connections
      ensures Valid()
      ensures forall c :: c in connections ==> c in old(connections) || fresh(c)
      ensures var g := Get(old(SlotsOf(connections)), maxConnections, alive, canOpen, old(nextId));
        && SlotsOf(connections) == g.slots
        && nextId == (if g.conn == Some(old(nextId)) then old(nextId) + 1 else old(nextId))
        && (conn == null <==> g.conn == None)
        && (conn != null ==> g.conn == Some(conn.id) && conn in connections && !conn.isAvailable)
    {
      ghost var slots: seq<Slot> := SlotsOf(connections);
      GrantKeepsPool(slots, maxConnections, alive, canOpen, nextId);
      var k := FindUsable(alive);
      if k < |connections| {
        conn := connections[k];
        SetAvailable(k, false);
        return;
      }
      conn := null;
      if |connections| < maxConnections && canOpen {
        conn := AddConnection();
      }
    }

    method AddConnection() returns (conn: DBConnection)
      modifies this
      ensures fresh(conn) && conn.id == old(nextId) && !conn.isAvailable
      ensures connections == old(connections) + [conn] && nextId == old(nextId) + 1
      ensures SlotsOf(connections) == old(SlotsOf(connections)) + [Slot(conn.id, false)]
    {
      conn := new DBConnection(nextId);
      nextId := nextId + 1;
      connections := connections + [conn];
    }

    method FindUsable(alive: set<nat>) returns (k: nat)
      ensures k == FirstUsable(SlotsOf(connections), alive) <= |connections|
    {
      k := 0;
      while k < |connections|
        invariant 0 <= k <= |connections|
        invariant forall j :: 0 <= j < k ==> !(connections[j].isAvailable && connections[j].id in alive)
      {
        if connections[k].isAvailable && connections[k].id in alive {
          return;
        }
        k := k + 1;
      }
    }

    method FindConnection(conn: DBConnection) returns (k: nat)
      requires DistinctConns(SlotsOf(connections)) && conn in connections
      ensures k < |connections| && connections[k] == conn && k == IndexOf(SlotsOf(connections), conn.id)
    {
      k := 0;
      while connections[k] != conn
        invariant 0 <= k < |connections| && conn in connections[k..]
        decreases |connections| - k
      {
        k := k + 1;
      }
      assert SlotsOf(connections)[k].conn == conn.id;
    }

    method SetAvailable(k: nat, available: bool)
      requires k < |connections| && DistinctConns(SlotsOf(connections))
      modifies connections[k]
      ensures connections[k].isAvailable == available
      ensures SlotsOf(connections) == old(SlotsOf(connections))[k := Slot(connections[k].id, available)]
    {
      ghost var slots: seq<Slot> := SlotsOf(connections);
      forall j | 0 <= j < |connections| && j != k
        ensures connections[j] != connections[k]
      {
        assert slots[j].conn != slots[k].conn;
      }
      connections[k].isAvailable := available;
    }

    method ReleaseConnection(conn: DBConnection?, needClose: bool)
      requires Valid()
      requires conn != null ==> conn in connections && !conn.isAvailable
      modifies this, conn
      ensures Valid() && nextId == old(nextId)
      ensures forall c :: c in connections ==> c in old(connections)
      ensures SlotsOf(connections) == if conn == null then old(SlotsOf(connections))
                                      else Released(old(SlotsOf(connections)), conn.id, needClose)
    {
      if conn == null {
        return;
      }
      ghost var slots: seq<Slot> := SlotsOf(connections);
      var k := FindConnection(conn);
      assert SlotsOf(connections)[k] == Slot(conn.id, false);
      ReleaseKeepsPool(slots, conn.id, needClose, nextId);
      if needClose {
        RemoveAt(k);
      } else {
        SetAvailable(k, true);
      }
    }

    method RemoveAt(k: nat)
      requires k < |connections|
      modifies this`connections
      ensures SlotsOf(connections) == old(SlotsOf(connections)[..k] + SlotsOf(connections)[k + 1..])
      ensures forall c :: c in connections ==> c in old(connections)
    {
      connections := connections[..k] + connections[k + 1..];
    }

    /** The statement wrappers: whatever the statement fails on is closed.  ok says whether it runs. */
    method StatementQuery(alive: set<nat>, canOpen: bool, ok: bool) returns (ret: int)
      requires Valid()
      modifies this, connections
      ensures Valid()
      ensures var g := Get(old(SlotsOf(connections)), maxConnections, alive, canOpen, old(nextId));
        match g.conn {
          case None => ret == -1 && SlotsOf(connections) == old(SlotsOf(connections))
          case Some(x) => ret == (if ok then 0 else -1) && SlotsOf(connections) == Released(g.slots, x, !ok)
        }
    {
      var conn := GetConnection(alive, canOpen);
      if conn == null {
        return -1;
      }
      ret := if ok then 0 else -1;
      ReleaseConnection(conn, ret < 0);
    }

    /** A connection on which BEGIN fails is closed at once. */
    method BeginTransaction(alive: set<nat>, canOpen: bool, ok: bool) returns (trans: SeafDBTrans?)
      requires Valid()
      modifies this, connections
      ensures Valid()
      ensures var g := Get(old(SlotsOf(connections)), maxConnections, alive, canOpen, old(nextId));
        match g.conn {
          case None => trans == null && SlotsOf(connections) == old(SlotsOf(connections))
          case Some(x) =>
            if ok
            then
              && trans != null && fresh(trans) && trans.conn.id == x && !trans.needClose
              && trans.conn in connections && SlotsOf(connections) == g.slots
            else trans == null && SlotsOf(connections) == Released(g.slots, x, true)
        }
    {
      var conn := GetConnection(alive, canOpen);
      if conn == null {
        return null;
      }
      if !ok {
        ReleaseConnection(conn, true);
        return null;
      }
      trans := new SeafDBTrans(conn);
    }

    method TransClose(trans: SeafDBTrans)
      requires Valid() && trans.conn in connections && !trans.conn.isAvailable
      modifies this, trans.conn
      ensures Valid()
      ensures SlotsOf(connections) == Released(old(SlotsOf(connections)), trans.conn.id, trans.needClose)
    {
      ReleaseConnection(trans.conn, trans.needClose);
    }
  }

  class SeafDBTrans {
    const conn: DBConnection
    var needClose: bool

    constructor (conn: DBConnection)
      ensures this.conn == conn && !needClose
    {
      this.conn, needClose := conn, false;
    }

    /** Queries, COMMIT and ROLLBACK alike: a failure sticks. */
    method RunSql(ok: bool) returns (ret: int)
      modifies this
      ensures ret == if ok then 0 else -1
      ensures needClose == (old(needClose) || !ok)
    {
      ret := if ok then 0 else -1;
      if ret < 0 {
        needClose := true;
      }
    }
  }
}
