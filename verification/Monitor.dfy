/** The deadlock monitor: one lock-order graph shared by all threads, and a held-lock table per thread. */
module Monitor {
  import opened Cycles
  import opened Digraphs
  import opened GraphIds
  import opened GraphNodes
  import opened HeldLocks
  import opened LockOrder
  import opened NodeSets
  import opened PearceKelly
  import opened Searches

  /** The most ids a report lists. */
  const MAX_CIRCLE := 10

  /** All entries are under ids that the graph has issued. */
  ghost predicate AllIssued(held: seq<Lock>, issued: set<Id>) {
    forall h :: h in held ==> h.id in issued
  }

  /** The ids printed for a rejected edge follow the order of the graph from the requested lock, and unless the
      list was cut off they lead to the held lock of the rejected edge. */
  ghost predicate Explains(e: Edges, circle: seq<Id>, id: Id, other: Id) {
    && 0 < |circle| <= MAX_CIRCLE && circle[0] == id && IsPath(e, circle) && Distinct(circle)
    && Reach(e, circle[|circle| - 1], other) && (|circle| < MAX_CIRCLE ==> circle[|circle| - 1] == other)
  }

  lemma PrefixExplains(e: Edges, path: seq<Id>, n: nat, id: Id, other: Id)
    requires Joins(e, path, id, other) && Distinct(path) && n == (if |path| < MAX_CIRCLE then |path| else MAX_CIRCLE)
    ensures path[..n] != [] && Explains(e, path[..n], id, other)
  {
    PathReach(e, path, n - 1, |path| - 1);
  }

  /** Ids of live pointers differ. */
  lemma LiveNamed(at: seq<Node>, members: set<int>, free: seq<int>, cur: map<Ptr, Id>, issued: set<Id>)
    requires Registered(at, members, free, cur, issued)
    ensures Named(cur, issued)
  {
    forall p | p in cur ensures cur[p] in issued && cur[p] != 0 {
      assert Names(at, p, cur[p]);
      UnpackPacked(NodeIndex(cur[p]), at[NodeIndex(cur[p])].version);
    }
    assert forall p :: p in cur ==> Names(at, p, cur[p]);
  }

  /** One step of the scan over the held locks. */
  lemma ScanStep(e: Edges, live: set<Id>, t: seq<Lock>, id: Id)
    requires t != []
    ensures t[0].id !in live ==> ScanHeld(e, live, t, id) == ScanHeld(e, live, t[1..], id)
    ensures t[0].id in live && t[0].id == id ==> ScanHeld(e, live, t, id) == Scan(e, false)
    ensures t[0].id in live && t[0].id != id && Reach(e, id, t[0].id) ==> ScanHeld(e, live, t, id) == Scan(e, true)
    ensures t[0].id in live && t[0].id != id && !Reach(e, id, t[0].id) ==> ScanHeld(e, live, t, id) == ScanHeld(e + {(t[0].id, id)}, live, t[1..], id)
  {
  }

  /** Prints the circle that a rejected edge from `other` to `id` would have closed. */
  method BuildCircle(graph: GraphCycles, id: Id, other: Id) returns (circle: seq<Id>)
    requires graph.Valid() && id in graph.cur.Values && other in graph.cur.Values && Reach(graph.IdEdges(), id, other)
    ensures graph.Valid() && circle != [] && Explains(graph.IdEdges(), circle, id, other)
    ensures circle[0] == id && |circle| <= 10 && (|circle| < 10 ==> circle[|circle| - 1] == other)
  {
    hide Registered, FreeOfEdges, IsTable, Permutation, Increasing, Neighbours, NodeSet.Valid, Rename, Reach, IsPath, Distinct, Explains;
    ghost var e := graph.IdEdges();
    BothLive(graph, id, other);
    var buf := new Id[MAX_CIRCLE];
    var len, path := graph.FindPath(id, other, MAX_CIRCLE, buf);
    var n := if len < MAX_CIRCLE then len else MAX_CIRCLE;
    circle := buf[..n];
    assert circle == path[..n];
    PrefixExplains(e, path, n, id, other);
  }

  lemma BothLive(graph: GraphCycles, id: Id, other: Id)
    requires graph.Valid() && id in graph.cur.Values && other in graph.cur.Values
    ensures id in graph.issued && !Expired(graph.nodes.at, id)
    ensures other in graph.issued && !Expired(graph.nodes.at, other)
  {
    hide Registered, FreeOfEdges, IsTable, Permutation, Increasing, Neighbours, NodeSet.Valid, Expired;
    LiveNotExpired(graph.nodes.at, graph.ptrmap.members, graph.freeNodes, graph.cur, graph.issued, id);
    LiveNotExpired(graph.nodes.at, graph.ptrmap.members, graph.freeNodes, graph.cur, graph.issued, other);
  }

  lemma RanksKeepNeighbours(a: seq<Node>, b: seq<Node>)
    requires OnlyRanksDiffer(a, b)
    ensures Neighbours(b) == Neighbours(a)
  {
  }

  /** Adds the edge from a held lock to the requested one, unless it would close a cycle. */
  method OrderBefore(graph: GraphCycles, other: Id, id: Id) returns (ok: bool)
    requires graph.Valid() && id in graph.cur.Values && other in graph.cur.Values && other != id
    modifies graph, graph.nodes, Neighbours(graph.nodes.at)
    ensures graph.Valid() && graph.cur == old(graph.cur) && graph.issued == old(graph.issued)
    ensures Neighbours(graph.nodes.at) == old(Neighbours(graph.nodes.at))
    ensures ok <==> !Reach(old(graph.IdEdges()), id, other)
    ensures graph.IdEdges() == if ok then old(graph.IdEdges()) + {(other, id)} else old(graph.IdEdges())
  {
    hide Registered, FreeOfEdges, IsTable, Permutation, Increasing, Neighbours, NodeSet.Valid, Rename, Reach, Expired, RanksKept;
    BothLive(graph, id, other);
    ghost var at := graph.nodes.at;
    ok := graph.InsertEdge(other, id);
    RanksKeepNeighbours(at, graph.nodes.at);
  }

  /** Orders the locks of a table before the requested one, up to the first that would close a cycle. */
  method CheckOrder(graph: GraphCycles, all: SynchLocksHeld, id: Id) returns (reported: bool, circle: seq<Id>)
    requires graph.Valid() && id in graph.cur.Values && all.n <= all.locks.Length && AllIssued(all.Contents(), graph.issued)
    modifies graph, graph.nodes, Neighbours(graph.nodes.at)
    ensures graph.Valid() && graph.cur == old(graph.cur) && graph.issued == old(graph.issued)
    ensures Neighbours(graph.nodes.at) == old(Neighbours(graph.nodes.at))
    ensures Scan(graph.IdEdges(), reported) == ScanHeld(old(graph.IdEdges()), graph.cur.Values, all.Contents(), id)
    ensures reported <==> circle != []
    ensures reported ==> exists h :: h in all.Contents() && Explains(graph.IdEdges(), circle, id, h.id)
  {
    hide Registered, FreeOfEdges, IsTable, Permutation, Increasing, Neighbours, NodeSet.Valid, Rename, Reach, ScanHeld, Explains;
    ghost var t, e, live := all.Contents(), graph.IdEdges(), graph.cur.Values;
    var i := 0;
    while i != all.n
      invariant 0 <= i <= all.n && all.n <= all.locks.Length && t == all.Contents()
      invariant graph.Valid() && graph.cur == old(graph.cur) && graph.issued == old(graph.issued)
      invariant Neighbours(graph.nodes.at) == old(Neighbours(graph.nodes.at))
      invariant ScanHeld(e, live, t, id) == ScanHeld(graph.IdEdges(), live, t[i..], id)
      decreases all.n - i
    {
      var other := all.locks[i].id;
      assert t[i] in t;
      ghost var now := graph.IdEdges();
      ScanStep(now, live, t[i..], id);
      var p := graph.Ptr(other);
      if p == 0 {
        i := i + 1;
        continue;  // the lock is gone
      }
      if other == id {
        return false, [];
      }
      var ok := OrderBefore(graph, other, id);
      if !ok {
        circle := BuildCircle(graph, id, other);
        return true, circle;
      }
      i := i + 1;
    }
    NothingLeft(graph.IdEdges(), live, t[i..], id);
    return false, [];
  }

  lemma NothingLeft(e: Edges, live: set<Id>, t: seq<Lock>, id: Id)
    requires t == []
    ensures ScanHeld(e, live, t, id) == Scan(e, false)
  {
  }

  /** The locks thread `t` holds are ordered before lock `id`. */
  ghost function Checked(s: State, t: Thread, id: Id): State {
    var scan := ScanHeld(s.edges, s.cur.Values, Held(s, t), id);
    s.(edges := scan.edges, potentialDeadlock := s.potentialDeadlock || scan.reported)
  }

  lemma FullTable(s: State, t: Thread, mu: Ptr)
    requires |Held(s, t)| >= MAX_LOCKS
    ensures BeforeLock(s, t, mu, 0, s.(otherError := true))
  {
  }

  lemma BeforeLockFrom(s: State, s1: State, t: Thread, mu: Ptr, id: Id)
    requires Identified(s, mu, id, s1) && |Held(s, t)| < MAX_LOCKS
    ensures BeforeLock(s, t, mu, id, Checked(s1, t, id)) && (Held(s, t) == [] ==> Checked(s1, t, id) == s1)
  {
  }

  lemma ReleaseKeepsIssued(held: seq<Lock>, id: Id, issued: set<Id>)
    requires IsHeldTable(held) && AllIssued(held, issued)
    ensures AllIssued(Released(held, id), issued)
  {
    ReleaseKeeps(held, id);
  }

  lemma SetHeldTwice(others: map<Thread, seq<Lock>>, t: Thread, a: seq<Lock>, b: seq<Lock>)
    ensures SetHeld(SetHeld(others, t, a), t, b) == SetHeld(others, t, b)
    ensures (if t in SetHeld(others, t, a) then SetHeld(others, t, a)[t] else []) == a
  {
  }

  /** The state after the release of a lock under id `id` has been recorded. */
  ghost function Forgotten(s: State, t: Thread, id: Id): State {
    s.(held := SetHeld(s.held, t, Released(Held(s, t), id)), otherError := s.otherError || Times(Held(s, t), id) == 0)
  }

  lemma AfterLockFrom(s: State, s1: State, t: Thread, mu: Ptr, id: Id)
    requires Identified(s, mu, id, s1)
    ensures AfterLock(s, t, mu, Forgotten(s1, t, id))
  {
  }

  /** Records a release in a table, whose start time is cleared when nothing is left; false if nothing was held under this id. */
  method Unrecord(all: SynchLocksHeld, mu: Ptr, id: Id) returns (ok: bool)
    requires all.Valid()
    modifies all, all.locks
    ensures all.Valid() && all.Contents() == Released(old(all.Contents()), id) && (!ok <==> Times(old(all.Contents()), id) == 0)
    ensures all.startTime == if all.n == 0 then 0 else old(all.startTime)
  {
    hide IsHeldTable, Released, Times;
    TimesPositive(all.Contents(), id);
    var outcome := all.UpdateAfterLock(mu, id);
    if all.n == 0 {
      all.startTime := 0;
    }
    ok := outcome == Done;
  }

  class DeadlockMonitor {
    const graph: GraphCycles
    var potentialDeadlocksFound: bool
    var otherErrorsFound: bool

    ghost predicate Valid()
      reads this, graph, graph.nodes, graph.ptrmap, graph.ptrmap.nodes, graph.ptrmap.table, Neighbours(graph.nodes.at)
    {
      graph.Valid()
    }

    /** The table of a thread is intact, and its entries are under ids from this graph. */
    ghost predicate Fits(all: SynchLocksHeld)
      reads graph, all, all.locks
    {
      all.Valid() && AllIssued(all.Contents(), graph.issued)
    }

    /** The whole state as thread `t` sees it: its own table is `all`, the other threads hold `others`. */
    ghost function Abs(t: Thread, all: SynchLocksHeld, others: map<Thread, seq<Lock>>): State
      reads this, graph, graph.nodes, all, all.locks
      requires all.n <= all.locks.Length
    {
      State(graph.IdEdges(), graph.cur, graph.issued, SetHeld(others, t, all.Contents()), potentialDeadlocksFound, otherErrorsFound)
    }

    constructor ()
      ensures Valid() && fresh(graph) && !potentialDeadlocksFound && !otherErrorsFound
      ensures graph.IdEdges() == {} && graph.cur == map[] && graph.issued == {}
    {
      var g := new GraphCycles();
      graph, potentialDeadlocksFound, otherErrorsFound := g, false, false;
    }

    /** Orders the locks that thread `t` holds before lock `id`, which is being requested. */
    method Order(ghost t: Thread, ghost others: map<Thread, seq<Lock>>, all: SynchLocksHeld, id: Id) returns (circle: seq<Id>)
      requires Valid() && Fits(all) && id in graph.cur.Values
      modifies this, graph, graph.nodes, Neighbours(graph.nodes.at)
      ensures Valid() && Fits(all) && graph.issued == old(graph.issued)
      ensures Abs(t, all, others) == Checked(old(Abs(t, all, others)), t, id)
      ensures potentialDeadlocksFound == (old(potentialDeadlocksFound) || circle != [])
      ensures circle != [] ==> exists h :: h in all.Contents() && Explains(graph.IdEdges(), circle, id, h.id)
    {
      hide Registered, FreeOfEdges, IsTable, Permutation, Increasing, Neighbours, NodeSet.Valid, Rename, Reach, ScanHeld, Explains, IsHeldTable;
      var reported;
      reported, circle := CheckOrder(graph, all, id);
      if reported {
        potentialDeadlocksFound := true;
      }
    }

    /** Called before thread `t` enters a lock. Returns its id, or 0 when the thread's table is full. */
    method BeforeLock(ghost t: Thread, ghost others: map<Thread, seq<Lock>>, all: SynchLocksHeld, mu: Ptr, now: nat)
      returns (id: Id, circle: seq<Id>)
      requires Valid() && Fits(all) && mu != 0
      requires mu in graph.cur || graph.freeNodes != [] || |graph.nodes.at| < MAX_NODES
      modifies this, graph, graph.nodes, graph.ptrmap, graph.ptrmap.table, Neighbours(graph.nodes.at), all`startTime
      ensures Valid() && Fits(all) && old(graph.issued) <= graph.issued
      ensures LockOrder.BeforeLock(old(Abs(t, all, others)), t, mu, id, Abs(t, all, others))
      ensures all.startTime == if all.n == 0 then now else old(all.startTime)
      ensures potentialDeadlocksFound == (old(potentialDeadlocksFound) || circle != [])
      ensures circle != [] ==> exists h :: h in all.Contents() && Explains(graph.IdEdges(), circle, id, h.id)
    {
      hide Registered, FreeOfEdges, IsTable, Permutation, Increasing, Neighbours, NodeSet.Valid, Rename, Explains, LockOrder.BeforeLock, Checked, IsHeldTable, ScanHeld;
      circle := [];
      ghost var s := Abs(t, all, others);
      if all.n >= MAX_LOCKS {
        otherErrorsFound := true;
        FullTable(s, t, mu);
        return 0, [];
      }
      id := graph.GetId(mu);
      assert mu in graph.cur;
      BeforeLockFrom(s, Abs(t, all, others), t, mu, id);
      if all.n == 0 {
        all.startTime := now;
        return;
      }
      circle := Order(t, others, all, id);
    }

    /** Called after thread `t` has entered a lock. */
    method InLock(ghost t: Thread, ghost others: map<Thread, seq<Lock>>, all: SynchLocksHeld, mu: Ptr, id: Id)
      requires Valid() && Fits(all) && id in graph.issued && id != 0
      modifies all`n, all.locks
      ensures Valid() && Fits(all) && Abs(t, all, others) == LockOrder.InLock(old(Abs(t, all, others)), t, mu, id)
      ensures var held, held' := old(all.Contents()), all.Contents();
              && (forall i :: 0 <= i < |held| && held[i].id != id ==> i < |held'| && held'[i] == held[i])
              && (forall i :: 0 <= i < |held| && held[i].id == id ==> |held'| == |held| && held'[i] == Lock(held[i].mu, held[i].count + 1, id))
              && ((forall e :: e in held ==> e.id != id) ==> held' == if |held| < 20 then held + [Lock(mu, 1, id)] else held)
    {
      hide Registered, FreeOfEdges, IsTable, Permutation, Increasing, Neighbours, NodeSet.Valid, Rename, IsHeldTable, Acquired;
      AcquireKeeps(all.Contents(), mu, id);
      SetHeldTwice(others, t, all.Contents(), Acquired(all.Contents(), mu, id));
      all.UpdateInLock(mu, id);
    }

    /** Records that thread `t` gives up a lock. */
    method Forget(ghost t: Thread, ghost others: map<Thread, seq<Lock>>, all: SynchLocksHeld, mu: Ptr, id: Id)
      requires Valid() && Fits(all)
      modifies this`otherErrorsFound, all, all.locks
      ensures Valid() && Fits(all) && Abs(t, all, others) == Forgotten(old(Abs(t, all, others)), t, id)
      ensures all.startTime == if all.n == 0 then 0 else old(all.startTime)
    {
      hide Registered, FreeOfEdges, IsTable, Permutation, Increasing, Neighbours, NodeSet.Valid, Rename, IsHeldTable, Released, Times;
      ghost var held := all.Contents();
      ReleaseKeepsIssued(held, id, graph.issued);
      SetHeldTwice(others, t, held, Released(held, id));
      var ok := Unrecord(all, mu, id);
      if !ok {
        otherErrorsFound := true;
      }
    }

    /** Called before thread `t` leaves a lock. */
    method AfterLock(ghost t: Thread, ghost others: map<Thread, seq<Lock>>, all: SynchLocksHeld, mu: Ptr)
      requires Valid() && Fits(all) && mu != 0
      requires mu in graph.cur || graph.freeNodes != [] || |graph.nodes.at| < MAX_NODES
      modifies this, graph, graph.nodes, graph.ptrmap, graph.ptrmap.table, Neighbours(graph.nodes.at), all, all.locks
      ensures Valid() && Fits(all) && old(graph.issued) <= graph.issued
      ensures LockOrder.AfterLock(old(Abs(t, all, others)), t, mu, Abs(t, all, others))
      ensures all.startTime == if all.n == 0 then 0 else old(all.startTime)
    {
      hide Registered, FreeOfEdges, IsTable, Permutation, Increasing, Neighbours, NodeSet.Valid, Rename, LockOrder.AfterLock, IsHeldTable, Forgotten;
      ghost var s := Abs(t, all, others);
      var id := graph.GetId(mu);
      AfterLockFrom(s, Abs(t, all, others), t, mu, id);
      Forget(t, others, all, mu, id);
    }

    /** Called before thread `t` tries to enter a lock; it does not matter whether the table has room. */
    method BeforeTryLock(ghost t: Thread, ghost others: map<Thread, seq<Lock>>, all: SynchLocksHeld, mu: Ptr, now: nat) returns (id: Id)
      requires Valid() && Fits(all) && mu != 0
      requires mu in graph.cur || graph.freeNodes != [] || |graph.nodes.at| < MAX_NODES
      modifies graph, graph.nodes, graph.ptrmap, graph.ptrmap.table, all`startTime
      ensures Valid() && Fits(all) && old(graph.issued) <= graph.issued
      ensures LockOrder.BeforeTryLock(old(Abs(t, all, others)), mu, id, Abs(t, all, others)) && id != 0
      ensures all.startTime == if all.n == 0 then now else old(all.startTime)
    {
      hide Registered, FreeOfEdges, IsTable, Permutation, Increasing, Neighbours, NodeSet.Valid, Rename, IsHeldTable;
      LiveNamed(graph.nodes.at, graph.ptrmap.members, graph.freeNodes, graph.cur, graph.issued);
      id := graph.GetId(mu);
      if all.n == 0 {
        all.startTime := now;
      }
    }

    /** Called by the watchdog when a thread has held its locks for too long; as thread `t`, whichever it is, sees it. */
    method ProcessWatchdogError(ghost t: Thread, ghost others: map<Thread, seq<Lock>>, ghost all: SynchLocksHeld)
      requires Valid() && Fits(all)
      modifies this`otherErrorsFound
      ensures Valid() && Fits(all) && Abs(t, all, others) == WatchdogError(old(Abs(t, all, others)))
    {
      hide Registered, FreeOfEdges, IsTable, Permutation, Increasing, Neighbours, NodeSet.Valid, Rename, IsHeldTable;
      otherErrorsFound := true;
    }

    /** Called when a lock is deleted. Tells whether the calling thread's table still has an entry for it. */
    method DeleteLock(ghost t: Thread, ghost others: map<Thread, seq<Lock>>, all: SynchLocksHeld, mu: Ptr) returns (heldHere: bool)
      requires Valid() && Fits(all)
      modifies graph, graph.nodes, graph.ptrmap, graph.ptrmap.table, Neighbours(graph.nodes.at)
      ensures Valid() && Fits(all) && Abs(t, all, others) == LockOrder.DeleteLock(old(Abs(t, all, others)), mu)
      ensures heldHere <==> exists h :: h in all.Contents() && h.mu == mu
      ensures graph.issued == old(graph.issued) && graph.cur == old(graph.cur) - {mu}
      ensures mu in old(graph.cur) ==> old(graph.cur)[mu] in graph.issued && forall p :: p in graph.cur ==> graph.cur[p] != old(graph.cur)[mu]
      ensures forall a, b :: (a, b) in graph.IdEdges() <==>
                (a, b) in old(graph.IdEdges()) && (mu in old(graph.cur) ==> a != old(graph.cur)[mu] && b != old(graph.cur)[mu])
    {
      hide Registered, FreeOfEdges, IsTable, Permutation, Increasing, Neighbours, NodeSet.Valid, Rename, IsHeldTable;
      graph.RemoveNode(mu);
      var i := all.FindLock(mu);
      heldHere := i < all.n;
      assert i < all.n ==> all.Contents()[i] in all.Contents();
    }
  }
}
