/** Any number of threads using locks through the monitored calls, as interleaved atomic steps. */
module Protocol {
  import opened Digraphs
  import opened GraphIds
  import opened GraphNodes
  import opened HeldLocks
  import opened LockOrder

  /** Who has entered a lock, and how many times. */
  datatype Owner = Owner(thread: Thread, depth: int)

  /** Where a thread stands: outside any monitored call; blocked in the real enter, with the id handed out before;
      past the real enter but not yet recorded; about to try; or unrecorded but not yet past the real leave, of a lock
      the thread owns or not. */
  datatype Pc = Idle | Waiting(mu: Ptr, id: Id) | Entered(mu: Ptr, id: Id) | Trying(mu: Ptr, id: Id) | Leaving(mu: Ptr, owned: bool)

  /** What has happened so far. `refused` are the threads with a request refused at their full table, `dropped` those whose full
      table has dropped a lock entered by a try. `strayed` says that a thread has left a lock it did not own, `overdue` that the
      watchdog has reported a thread, `inverted` that a request for a lock already owned has met another lock first in the table.
      `requests` collects the pairs (held, requested) of all requests, `orders` of those for locks not yet owned. */
  datatype Past = Past(refused: set<Thread>, dropped: set<Thread>, strayed: bool, overdue: bool, inverted: bool, requests: Edges, orders: Edges)

  datatype World = World(mon: State, owner: map<Ptr, Owner>, pc: map<Thread, Pc>, past: Past)

  const INIT := World(START, map[], map[], Past({}, {}, false, false, false, {}, {}))

  datatype Step =
    | Request(t: Thread, mu: Ptr)
    | Enter(t: Thread)
    | Record(t: Thread)
    | TryRequest(t: Thread, mu: Ptr)
    | TryEnter(t: Thread)
    | TryFail(t: Thread)
    | Unrecord(t: Thread, mu: Ptr)
    | Leave(t: Thread)
    | Delete(t: Thread, mu: Ptr)
    | Overdue(t: Thread)

  function At(w: World, t: Thread): Pc {
    if t in w.pc then w.pc[t] else Idle
  }

  function Depth(w: World, t: Thread, mu: Ptr): int {
    if mu in w.owner && w.owner[mu].thread == t then w.owner[mu].depth else 0
  }

  function Take(owner: map<Ptr, Owner>, t: Thread, mu: Ptr): map<Ptr, Owner> {
    owner[mu := Owner(t, if mu in owner then owner[mu].depth + 1 else 1)]
  }

  function Give(owner: map<Ptr, Owner>, mu: Ptr): map<Ptr, Owner>
    requires mu in owner
  {
    if owner[mu].depth == 1 then owner - {mu} else owner[mu := owner[mu].(depth := owner[mu].depth - 1)]
  }

  /** The lock is free or already owned by this thread. */
  predicate Enterable(w: World, t: Thread, mu: Ptr) {
    mu !in w.owner || w.owner[mu].thread == t
  }

  /** No thread holds the lock or is inside a call on it. */
  ghost predicate Unused(w: World, mu: Ptr) {
    mu !in w.owner && forall t :: At(w, t) != Idle ==> At(w, t).mu != mu
  }

  ghost function Requested(t: seq<Lock>, id: Id): Edges {
    set h | h in t && h.id != id :: (h.id, id)
  }

  /** A request for a lock that is owned already gets past another lock in the table. */
  predicate Inverts(held: seq<Lock>, id: Id, owned: bool) {
    owned && id != 0 && held != [] && held[0].id != id
  }

  /** The requesting thread is blocked from now on, under the id it was given. */
  ghost predicate Asks(w: World, t: Thread, mu: Ptr, id: Id, w': World) {
    var held, owned := Held(w.mon, t), Depth(w, t, mu) > 0;
    w' == w.(mon := w'.mon, pc := w.pc[t := Waiting(mu, id)], past := w.past.(
             refused := if |held| >= MAX_LOCKS then w.past.refused + {t} else w.past.refused,
             inverted := w.past.inverted || Inverts(held, id, owned),
             requests := w.past.requests + Requested(held, id),
             orders := if owned then w.past.orders else w.past.orders + Requested(held, id)))
  }

  /** The thread asks to enter a lock; the order of its held locks before this one is checked and recorded. */
  ghost predicate Requests(w: World, t: Thread, mu: Ptr, w': World) {
    At(w, t) == Idle && mu != 0 && exists id :: BeforeLock(w.mon, t, mu, id, w'.mon) && Asks(w, t, mu, id, w')
  }

  /** The real enter lets the thread in; a lock with id 0 is not monitored. */
  ghost predicate Enters(w: World, t: Thread, w': World) {
    var here := At(w, t);
    here.Waiting? && Enterable(w, t, here.mu) &&
    w' == w.(owner := Take(w.owner, t, here.mu), pc := w.pc[t := if here.id == 0 then Idle else Entered(here.mu, here.id)])
  }

  ghost predicate Records(w: World, t: Thread, w': World) {
    var here := At(w, t);
    here.Entered? &&
    w' == w.(mon := InLock(w.mon, t, here.mu, here.id), pc := w.pc[t := Idle],
             past := if |Held(w.mon, t)| == MAX_LOCKS && Times(Held(w.mon, t), here.id) == 0 then w.past.(dropped := w.past.dropped + {t}) else w.past)
  }

  ghost predicate TryRequests(w: World, t: Thread, mu: Ptr, w': World) {
    At(w, t) == Idle && mu != 0 &&
    exists id :: BeforeTryLock(w.mon, mu, id, w'.mon) && w' == w.(mon := w'.mon, pc := w.pc[t := Trying(mu, id)])
  }

  ghost predicate TryEnters(w: World, t: Thread, w': World) {
    var here := At(w, t);
    here.Trying? && Enterable(w, t, here.mu) &&
    w' == w.(owner := Take(w.owner, t, here.mu), pc := w.pc[t := Entered(here.mu, here.id)])
  }

  ghost predicate TryFails(w: World, t: Thread, w': World) {
    At(w, t).Trying? && w' == w.(pc := w.pc[t := Idle])
  }

  /** The thread is about to leave a lock, which it may not own at all. */
  ghost predicate Unrecords(w: World, t: Thread, mu: Ptr, w': World) {
    At(w, t) == Idle && mu != 0 && AfterLock(w.mon, t, mu, w'.mon) &&
    w' == w.(mon := w'.mon, pc := w.pc[t := Leaving(mu, Depth(w, t, mu) > 0)], past := w.past.(strayed := w.past.strayed || Depth(w, t, mu) == 0))
  }

  /** The real leave. Leaving a lock that the thread does not own has no effect on who owns it. */
  ghost predicate Leaves(w: World, t: Thread, w': World) {
    var here := At(w, t);
    here.Leaving? && (here.owned ==> here.mu in w.owner) &&
    w' == w.(owner := if here.owned then Give(w.owner, here.mu) else w.owner, pc := w.pc[t := Idle])
  }

  ghost predicate Deletes(w: World, t: Thread, mu: Ptr, w': World) {
    At(w, t) == Idle && Unused(w, mu) && w' == w.(mon := DeleteLock(w.mon, mu))
  }

  /** The watchdog reports a thread, at whatever time it does. */
  ghost predicate Overdues(w: World, w': World) {
    w' == w.(mon := WatchdogError(w.mon), past := w.past.(overdue := true))
  }

  ghost predicate Takes(w: World, step: Step, w': World) {
    match step
    case Request(t, mu) => Requests(w, t, mu, w')
    case Enter(t) => Enters(w, t, w')
    case Record(t) => Records(w, t, w')
    case TryRequest(t, mu) => TryRequests(w, t, mu, w')
    case TryEnter(t) => TryEnters(w, t, w')
    case TryFail(t) => TryFails(w, t, w')
    case Unrecord(t, mu) => Unrecords(w, t, mu, w')
    case Leave(t) => Leaves(w, t, w')
    case Delete(t, mu) => Deletes(w, t, mu, w')
    case Overdue(t) => Overdues(w, w')
  }

  ghost predicate IsRun(run: seq<World>, steps: seq<Step>) {
    && |run| == |steps| + 1 && run[0] == INIT
    && forall i, j :: 0 <= i && j == i + 1 && j < |run| ==> Takes(run[i], steps[i], run[j])
  }

  /** The thread's own table has been full when there was another lock to note. */
  predicate Overflowed(w: World, t: Thread) {
    t in w.past.refused || t in w.past.dropped
  }

  function IdOf(w: World, mu: Ptr): Id {
    if mu in w.mon.cur then w.mon.cur[mu] else 0
  }

  /** The thread owns the lock once more than its table says. */
  predicate Unrecorded(pc: Pc, mu: Ptr) {
    (pc.Entered? || (pc.Leaving? && pc.owned)) && pc.mu == mu
  }

  ghost predicate Regular(w: World, t: Thread) {
    IsHeldTable(Held(w.mon, t)) && (At(w, t).Entered? || At(w, t).Trying? ==> At(w, t).id != 0)
  }

  /** What holds of the monitor's own state at all times. */
  ghost predicate Sound(w: World) {
    && Named(w.mon.cur, w.mon.issued) && Acyclic(w.mon.edges)
    && (forall t :: Regular(w, t))
    && (forall mu :: mu in w.owner ==> w.owner[mu].depth > 0)
    && Justified(w.mon.edges, w.mon.potentialDeadlock, w.past.requests)
    && (!w.past.inverted ==> Justified(w.mon.edges, w.mon.potentialDeadlock, w.past.orders))
  }

  /** All edges are in the history, and a report has been made only if the history contains a cycle. */
  ghost predicate Justified(edges: Edges, reported: bool, history: Edges) {
    edges <= history && (reported ==> !Acyclic(history))
  }

  /** All entries are for locks that still have the id they were acquired under. */
  ghost predicate Known(w: World, held: seq<Lock>) {
    forall h :: h in held ==> h.mu in w.mon.cur && w.mon.cur[h.mu] == h.id
  }

  /** How often the thread owns the lock as far as the monitor knows: by its table, and once more between the real call and the recording. */
  ghost function Accounted(w: World, t: Thread, mu: Ptr): int {
    Times(Held(w.mon, t), IdOf(w, mu)) + (if Unrecorded(At(w, t), mu) then 1 else 0)
  }

  ghost predicate Covered(w: World, t: Thread, mu: Ptr) {
    Accounted(w, t, mu) <= Depth(w, t, mu)
  }

  ghost predicate Counted(w: World, t: Thread, mu: Ptr) {
    Accounted(w, t, mu) == Depth(w, t, mu)
  }

  /** The thread owns whatever its table says, and the id it was handed is that of the lock; id 0 stands for a refused request. */
  ghost predicate Tracked(w: World, t: Thread) {
    var pc := At(w, t);
    && Known(w, Held(w.mon, t)) && (forall mu :: Covered(w, t, mu))
    && ((pc.Waiting? || pc.Entered? || pc.Trying?) && pc.id != 0 ==> pc.mu in w.mon.cur && w.mon.cur[pc.mu] == pc.id)
  }

  /** If the thread is blocked, every lock in its table is ordered before the one it waits for. */
  ghost predicate Ordered(w: World, t: Thread) {
    var pc := At(w, t);
    pc.Waiting? && pc.id != 0 && Depth(w, t, pc.mu) == 0 ==> forall h :: h in Held(w.mon, t) ==> (h.id, pc.id) in w.mon.edges
  }

  /** The table has everything the thread owns, and its request was not refused. */
  ghost predicate Complete(w: World, t: Thread) {
    (forall mu :: Counted(w, t, mu)) && (At(w, t).Waiting? ==> At(w, t).id != 0)
  }

  ghost predicate Fine(w: World, t: Thread) {
    Tracked(w, t) && (!w.mon.potentialDeadlock ==> Ordered(w, t)) && (!Overflowed(w, t) ==> Complete(w, t))
  }

  /** Refused requests, leaving a lock that is not owned, and the watchdog always set the error flag; apart from them only
      an overflow can. */
  ghost predicate ErrorsExplained(w: World) {
    && (w.past.refused != {} || w.past.strayed || w.past.overdue ==> w.mon.otherError)
    && (w.mon.otherError ==> w.past.refused != {} || w.past.dropped != {} || w.past.strayed || w.past.overdue)
  }

  ghost predicate Invariant(w: World) {
    Sound(w) && (forall t :: Fine(w, t)) && ErrorsExplained(w)
  }

  lemma CycleStays(e: Edges, f: Edges)
    requires e <= f && !Acyclic(e)
    ensures !Acyclic(f)
  {
    var a, b :| (a, b) in e && Reach(e, b, a);
    ReachMono(e, f, b, a);
  }

  /** A report made by a scan all of whose pairs belong to a history shows that this history contains a cycle. */
  lemma ReportJustified(e: Edges, live: set<Id>, held: seq<Lock>, id: Id, history: Edges)
    requires e <= history && Requested(held, id) <= history && ScanHeld(e, live, held, id).reported
    ensures !Acyclic(history)
  {
    ReportExact(e, live, held, id);
    var h :| h in Scanned(live, held, id) && h.id in live && Reach(e, id, h.id);
    ReachMono(e, history, id, h.id);
    assert (h.id, id) in Requested(held, id);
  }

  /** The scan of one request keeps the graph acyclic, within the history, and reports only real cycles of the history. */
  lemma ScanSound(e: Edges, live: set<Id>, held: seq<Lock>, id: Id, history: Edges)
    requires Acyclic(e) && e <= history
    ensures var scan := ScanHeld(e, live, held, id); var history' := history + Requested(held, id);
            Acyclic(scan.edges) && e <= scan.edges <= history' && (scan.reported ==> !Acyclic(history'))
  {
    var scan, history' := ScanHeld(e, live, held, id), history + Requested(held, id);
    ScanAddsOrder(e, live, held, id);
    if scan.reported { ReportJustified(e, live, held, id, history'); }
    forall p | p in scan.edges ensures p in history' {
      if p !in e {
        var h :| h in held && h.id == p.0 && h.id != id;
        assert p == (h.id, id);
      }
    }
  }

  lemma BeforeLockSound(s: State, t: Thread, mu: Ptr, id: Id, s': State, history: Edges)
    requires Named(s.cur, s.issued) && Acyclic(s.edges) && BeforeLock(s, t, mu, id, s')
    ensures Named(s'.cur, s'.issued) && Acyclic(s'.edges) && s'.held == s.held
    ensures Justified(s.edges, s.potentialDeadlock, history) ==> Justified(s'.edges, s'.potentialDeadlock, history + Requested(Held(s, t), id))
  {
    hide Acyclic, ScanHeld, Requested, Named;
    var held := Held(s, t);
    if s.potentialDeadlock && !Acyclic(history) { CycleStays(history, history + Requested(held, id)); }
    if |held| < MAX_LOCKS {
      var s1 :| Identified(s, mu, id, s1) &&
                var scan := ScanHeld(s1.edges, s1.cur.Values, held, id);
                s' == s1.(edges := scan.edges, potentialDeadlock := s.potentialDeadlock || scan.reported);
      IdentifiedNamed(s, mu, id, s1);
      ScanSound(s.edges, s1.cur.Values, held, id, s.edges);
      if s.edges <= history { ScanSound(s.edges, s1.cur.Values, held, id, history); }
    }
  }

  /** A request that finds its lock first in the table changes neither edges nor reports. */
  lemma ReentryIgnored(s: State, t: Thread, mu: Ptr, id: Id, s': State)
    requires Named(s.cur, s.issued) && BeforeLock(s, t, mu, id, s') && !Inverts(Held(s, t), id, true)
    ensures s'.edges == s.edges && s'.potentialDeadlock == s.potentialDeadlock
  {
    hide Reach;
    if |Held(s, t)| < MAX_LOCKS {
      var s1 :| Identified(s, mu, id, s1) &&
                var scan := ScanHeld(s1.edges, s1.cur.Values, Held(s, t), id);
                s' == s1.(edges := scan.edges, potentialDeadlock := s.potentialDeadlock || scan.reported);
      IdentifiedNamed(s, mu, id, s1);
      assert s1.cur[mu] in s1.cur.Values;
    }
  }

  lemma RequestSound(w: World, t: Thread, mu: Ptr, w': World)
    requires Sound(w) && Requests(w, t, mu, w')
    ensures Sound(w')
  {
    hide Acyclic, Named, BeforeLock, Requested, Justified;
    var id :| BeforeLock(w.mon, t, mu, id, w'.mon) && Asks(w, t, mu, id, w');
    BeforeLockSound(w.mon, t, mu, id, w'.mon, w.past.requests);
    if !w'.past.inverted {
      if Depth(w, t, mu) > 0 {
        ReentryIgnored(w.mon, t, mu, id, w'.mon);
      } else {
        BeforeLockSound(w.mon, t, mu, id, w'.mon, w.past.orders);
      }
    }
    forall u ensures Regular(w', u) {
      assert Regular(w, u);
    }
  }

  lemma RecordSound(w: World, t: Thread, w': World)
    requires Sound(w) && Records(w, t, w')
    ensures Sound(w')
  {
    var here := At(w, t);
    assert Regular(w, t);
    AcquireCounts(Held(w.mon, t), here.mu, here.id);
    forall u ensures Regular(w', u) {
      assert Regular(w, u);
    }
  }

  lemma UnrecordSound(w: World, t: Thread, mu: Ptr, w': World)
    requires Sound(w) && Unrecords(w, t, mu, w')
    ensures Sound(w')
  {
    hide Released, Times, IsHeldTable, Acyclic;
    var id, s1 :| Identified(w.mon, mu, id, s1) &&
                  w'.mon == s1.(held := SetHeld(w.mon.held, t, Released(Held(w.mon, t), id)), otherError := w.mon.otherError || Times(Held(w.mon, t), id) == 0);
    assert Regular(w, t);
    ReleaseCounts(Held(w.mon, t), id);
    forall u ensures Regular(w', u) {
      assert Regular(w, u);
    }
  }

  lemma DeleteSound(w: World, t: Thread, mu: Ptr, w': World)
    requires Sound(w) && Deletes(w, t, mu, w')
    ensures Sound(w')
  {
    if !Acyclic(w'.mon.edges) { CycleStays(w'.mon.edges, w.mon.edges); }
    forall u ensures Regular(w', u) {
      assert Regular(w, u);
    }
  }

  lemma StepSound(w: World, step: Step, w': World)
    requires Sound(w) && Takes(w, step, w')
    ensures Sound(w')
  {
    match step
    case Request(t, mu) => RequestSound(w, t, mu, w');
    case Record(t) => RecordSound(w, t, w');
    case Unrecord(t, mu) => UnrecordSound(w, t, mu, w');
    case Delete(t, mu) => DeleteSound(w, t, mu, w');
    case _ =>
      forall u ensures Regular(w', u) {
        assert Regular(w, u);
      }
  }

  /** The step left thread u, its table and its depths alone, and only added ids and edges. */
  ghost predicate LeavesAlone(w: World, w': World, u: Thread) {
    && At(w', u) == At(w, u) && Held(w'.mon, u) == Held(w.mon, u) && (forall mu :: Depth(w', u, mu) == Depth(w, u, mu))
    && Extends(w, w')
  }

  ghost predicate Extends(w: World, w': World) {
    && (forall p :: p in w.mon.cur ==> p in w'.mon.cur && w'.mon.cur[p] == w.mon.cur[p])
    && (forall p :: p in w'.mon.cur && p !in w.mon.cur ==> w'.mon.cur[p] !in w.mon.issued)
    && w.mon.edges <= w'.mon.edges
  }

  /** Reports and overflows are never taken back. */
  ghost predicate KeepsFlags(w: World, w': World, u: Thread) {
    (w.mon.potentialDeadlock ==> w'.mon.potentialDeadlock) && (Overflowed(w, u) ==> Overflowed(w', u))
  }

  /** A lock that gets its first id is in nobody's table. */
  lemma SameCounts(w: World, w': World, u: Thread)
    requires Sound(w) && Tracked(w, u) && Extends(w, w')
    ensures forall mu :: Times(Held(w.mon, u), IdOf(w', mu)) == Times(Held(w.mon, u), IdOf(w, mu))
  {
    var held := Held(w.mon, u);
    assert Regular(w, u);
    forall mu ensures Times(held, IdOf(w', mu)) == Times(held, IdOf(w, mu)) {
      if mu !in w.mon.cur {
        TimesPositive(held, 0);
        TimesPositive(held, IdOf(w', mu));
      }
    }
  }

  lemma Undisturbed(w: World, w': World, u: Thread)
    requires Sound(w) && Fine(w, u) && LeavesAlone(w, w', u) && KeepsFlags(w, w', u)
    ensures Fine(w', u)
  {
    SameCounts(w, w', u);
    forall m ensures Accounted(w', u, m) == Accounted(w, u, m) && (Covered(w, u, m) ==> Covered(w', u, m)) && (Counted(w, u, m) ==> Counted(w', u, m)) {
    }
    assert forall m :: Covered(w, u, m);
    if !Overflowed(w', u) { assert forall m :: Counted(w, u, m); }
  }

  lemma RequestExtends(s: State, t: Thread, mu: Ptr, id: Id, s': State)
    requires Named(s.cur, s.issued) && BeforeLock(s, t, mu, id, s') && Acyclic(s.edges)
    ensures s'.held == s.held && s.edges <= s'.edges && (s.potentialDeadlock ==> s'.potentialDeadlock)
    ensures forall p :: p in s.cur ==> p in s'.cur && s'.cur[p] == s.cur[p]
    ensures forall p :: p in s'.cur && p !in s.cur ==> s'.cur[p] !in s.issued
    ensures if |Held(s, t)| >= MAX_LOCKS then id == 0 else id != 0 && mu in s'.cur && s'.cur[mu] == id && s'.otherError == s.otherError
    ensures id != 0 && !s'.potentialDeadlock ==> !ScanHeld(s.edges, s'.cur.Values, Held(s, t), id).reported &&
                                                 s'.edges == ScanHeld(s.edges, s'.cur.Values, Held(s, t), id).edges
  {
    hide ScanHeld, Acyclic;
    if |Held(s, t)| < MAX_LOCKS {
      var s1 :| Identified(s, mu, id, s1) &&
                var scan := ScanHeld(s1.edges, s1.cur.Values, Held(s, t), id);
                s' == s1.(edges := scan.edges, potentialDeadlock := s.potentialDeadlock || scan.reported);
      IdentifiedNamed(s, mu, id, s1);
      ScanAddsOrder(s.edges, s1.cur.Values, Held(s, t), id);
    }
  }

  /** An unreported request has ordered every lock of the table before the requested one, unless that one is held itself. */
  lemma OrderedBefore(e: Edges, cur: map<Ptr, Id>, held: seq<Lock>, id: Id)
    requires forall h :: h in held ==> h.mu in cur && cur[h.mu] == h.id && h.id != id
    requires !ScanHeld(e, cur.Values, held, id).reported
    ensures forall h :: h in held ==> (h.id, id) in ScanHeld(e, cur.Values, held, id).edges
  {
    ScannedAll(cur.Values, held, id);
    UnreportedEdges(e, cur.Values, held, id);
    forall h | h in held ensures (h.id, id) in ScanHeld(e, cur.Values, held, id).edges {
      assert h.id in cur.Values;
    }
  }

  lemma RequestLeaves(w: World, t: Thread, mu: Ptr, w': World) returns (id: Id)
    requires Sound(w) && Requests(w, t, mu, w')
    ensures BeforeLock(w.mon, t, mu, id, w'.mon) && Asks(w, t, mu, id, w')
    ensures Extends(w, w') && w'.mon.held == w.mon.held && forall u :: KeepsFlags(w, w', u)
  {
    hide ScanHeld, Acyclic, BeforeLock, Requested;
    id :| BeforeLock(w.mon, t, mu, id, w'.mon) && Asks(w, t, mu, id, w');
    RequestExtends(w.mon, t, mu, id, w'.mon);
  }

  /** After an unreported request every lock of the table is ordered before the requested one. */
  lemma RequestOrders(w: World, t: Thread, mu: Ptr, id: Id, w': World)
    requires Sound(w) && Tracked(w, t) && BeforeLock(w.mon, t, mu, id, w'.mon) && Asks(w, t, mu, id, w') && !w'.mon.potentialDeadlock
    requires id != 0 && Depth(w, t, mu) == 0
    ensures forall h :: h in Held(w.mon, t) ==> (h.id, id) in w'.mon.edges
  {
    hide ScanHeld, Acyclic, BeforeLock, Requested;
    RequestExtends(w.mon, t, mu, id, w'.mon);
    SameCounts(w, w', t);
    assert Regular(w, t) && Covered(w, t, mu);
    TimesPositive(Held(w.mon, t), IdOf(w, mu));
    TimesPositive(Held(w.mon, t), id);
    OrderedBefore(w.mon.edges, w'.mon.cur, Held(w.mon, t), id);
  }

  lemma FineRequest(w: World, t: Thread, mu: Ptr, w': World)
    requires Sound(w) && Fine(w, t) && Requests(w, t, mu, w')
    ensures Fine(w', t)
  {
    hide ScanHeld, Acyclic, BeforeLock, Requested, Times;
    var id := RequestLeaves(w, t, mu, w');
    RequestExtends(w.mon, t, mu, id, w'.mon);
    SameCounts(w, w', t);
    forall m ensures Covered(w', t, m) && (!Overflowed(w', t) ==> Counted(w', t, m)) {
      assert Covered(w, t, m) && (!Overflowed(w, t) ==> Counted(w, t, m));
    }
    if id != 0 && Depth(w, t, mu) == 0 && !w'.mon.potentialDeadlock {
      RequestOrders(w, t, mu, id, w');
    }
  }

  lemma FineEnter(w: World, t: Thread, w': World)
    requires Sound(w) && Fine(w, t) && (Enters(w, t, w') || TryEnters(w, t, w'))
    ensures Fine(w', t)
  {
    hide Times;
    assert Regular(w, t);
    var mu := At(w, t).mu;
    forall m ensures Covered(w', t, m) && (!Overflowed(w', t) ==> Counted(w', t, m)) {
      assert Covered(w, t, m) && (!Overflowed(w, t) ==> Counted(w, t, m));
    }
  }

  lemma FineRecord(w: World, t: Thread, w': World)
    requires Sound(w) && Fine(w, t) && Records(w, t, w')
    ensures Fine(w', t)
  {
    hide Acquired, Times, IsHeldTable;
    var here, held := At(w, t), Held(w.mon, t);
    assert Regular(w, t);
    AcquireCounts(held, here.mu, here.id);
    AcquireKeeps(held, here.mu, here.id);
    assert Held(w'.mon, t) == Acquired(held, here.mu, here.id);
    forall m ensures Covered(w', t, m) && (!Overflowed(w', t) ==> Counted(w', t, m)) {
      assert Covered(w, t, m) && (!Overflowed(w, t) ==> Counted(w, t, m)) && (IdOf(w', m) == here.id <==> m == here.mu);
    }
  }

  lemma TryRequestLeaves(w: World, t: Thread, mu: Ptr, w': World) returns (id: Id)
    requires Sound(w) && TryRequests(w, t, mu, w')
    ensures w' == w.(mon := w'.mon, pc := w.pc[t := Trying(mu, id)]) && mu in w'.mon.cur && w'.mon.cur[mu] == id
    ensures Extends(w, w') && w'.mon.held == w.mon.held && w'.mon.potentialDeadlock == w.mon.potentialDeadlock && w'.mon.otherError == w.mon.otherError
  {
    id :| BeforeTryLock(w.mon, mu, id, w'.mon) && w' == w.(mon := w'.mon, pc := w.pc[t := Trying(mu, id)]);
    IdentifiedNamed(w.mon, mu, id, w'.mon);
  }

  lemma FineTryRequest(w: World, t: Thread, mu: Ptr, w': World)
    requires Sound(w) && Fine(w, t) && TryRequests(w, t, mu, w')
    ensures Fine(w', t)
  {
    hide Times;
    var id := TryRequestLeaves(w, t, mu, w');
    SameCounts(w, w', t);
    forall m ensures Covered(w', t, m) && (!Overflowed(w', t) ==> Counted(w', t, m)) {
      assert Covered(w, t, m) && (!Overflowed(w, t) ==> Counted(w, t, m));
    }
  }

  lemma FineTryFail(w: World, t: Thread, w': World)
    requires Sound(w) && Fine(w, t) && TryFails(w, t, w')
    ensures Fine(w', t)
  {
    hide Times;
    forall m ensures Covered(w', t, m) && (!Overflowed(w', t) ==> Counted(w', t, m)) {
      assert Covered(w, t, m) && (!Overflowed(w, t) ==> Counted(w, t, m));
    }
  }

  /** What recording a release does: the lock is looked up, and its entry, if any, counts one less. */
  lemma UnrecordLeaves(w: World, t: Thread, mu: Ptr, w': World) returns (id: Id)
    requires Sound(w) && Unrecords(w, t, mu, w')
    ensures mu in w'.mon.cur && w'.mon.cur[mu] == id && Extends(w, w')
    ensures w' == w.(mon := w'.mon, pc := w.pc[t := Leaving(mu, Depth(w, t, mu) > 0)], past := w.past.(strayed := w.past.strayed || Depth(w, t, mu) == 0))
    ensures w'.mon.held == SetHeld(w.mon.held, t, Released(Held(w.mon, t), id)) && w'.mon.potentialDeadlock == w.mon.potentialDeadlock
    ensures w'.mon.otherError == (w.mon.otherError || Times(Held(w.mon, t), id) == 0)
  {
    hide Released, Times;
    var i, s1 :| Identified(w.mon, mu, i, s1) &&
                 w'.mon == s1.(held := SetHeld(w.mon.held, t, Released(Held(w.mon, t), i)), otherError := w.mon.otherError || Times(Held(w.mon, t), i) == 0);
    IdentifiedNamed(w.mon, mu, i, s1);
    id := i;
  }

  /** A thread whose table is complete finds the lock it leaves in it exactly if it owns that lock, and is reported otherwise; a
      lock it does not own is never in its table. */
  lemma UnrecordFinds(w: World, t: Thread, mu: Ptr, w': World) returns (id: Id)
    requires Sound(w) && Tracked(w, t) && Unrecords(w, t, mu, w')
    ensures w'.mon.otherError == (w.mon.otherError || Times(Held(w.mon, t), id) == 0)
    ensures Depth(w, t, mu) == 0 ==> Times(Held(w.mon, t), id) == 0
    ensures Depth(w, t, mu) > 0 && Complete(w, t) ==> Times(Held(w.mon, t), id) > 0
    ensures Complete(w, t) ==> (w'.mon.otherError <==> w.mon.otherError || Depth(w, t, mu) == 0)
  {
    DepthNatural(w, t, mu);
    id := UnrecordLeaves(w, t, mu, w');
    assert Regular(w, t) && Covered(w, t, mu) && (Complete(w, t) ==> Counted(w, t, mu));
    SameCounts(w, w', t);
    TimesPositive(Held(w.mon, t), id);
  }

  lemma FineUnrecord(w: World, t: Thread, mu: Ptr, w': World)
    requires Sound(w) && Fine(w, t) && Unrecords(w, t, mu, w')
    ensures Fine(w', t)
  {
    hide Released, Times, IsHeldTable;
    var held := Held(w.mon, t);
    var id := UnrecordLeaves(w, t, mu, w');
    assert Regular(w, t);
    ReleaseCounts(held, id);
    ReleaseKeeps(held, id);
    SameCounts(w, w', t);
    assert Held(w'.mon, t) == Released(held, id);
    assert Named(w'.mon.cur, w'.mon.issued) by { UnrecordSound(w, t, mu, w'); }
    var i := UnrecordFinds(w, t, mu, w');
    forall m ensures Covered(w', t, m) && (!Overflowed(w', t) ==> Counted(w', t, m)) {
      assert Covered(w, t, m) && (!Overflowed(w, t) ==> Counted(w, t, m)) && (IdOf(w', m) == id <==> m == mu);
      TimesPositive(held, IdOf(w', m));
    }
  }

  lemma FineLeave(w: World, t: Thread, w': World)
    requires Sound(w) && Fine(w, t) && Leaves(w, t, w')
    ensures Fine(w', t)
  {
    hide Times;
    var mu := At(w, t).mu;
    assert Regular(w, t) && Covered(w, t, mu);
    TimesPositive(Held(w.mon, t), IdOf(w, mu));
    forall m ensures Covered(w', t, m) && (!Overflowed(w', t) ==> Counted(w', t, m)) {
      assert Covered(w, t, m) && (!Overflowed(w, t) ==> Counted(w, t, m));
    }
  }

  lemma FineDelete(w: World, t: Thread, mu: Ptr, w': World, u: Thread)
    requires Sound(w) && Fine(w, u) && Deletes(w, t, mu, w')
    ensures Fine(w', u)
  {
    hide Times;
    var held := Held(w.mon, u);
    assert Regular(w, u);
    if mu in w.mon.cur {
      assert Covered(w, u, mu);
      TimesPositive(held, w.mon.cur[mu]);
      TimesPositive(held, 0);
      assert Times(held, IdOf(w, mu)) == 0 == Times(held, IdOf(w', mu));
      forall m ensures Covered(w', u, m) && (!Overflowed(w', u) ==> Counted(w', u, m)) {
        assert Covered(w, u, m) && (!Overflowed(w, u) ==> Counted(w, u, m));
      }
    }
  }

  /** What a step does to the other threads. */
  lemma OthersAlone(w: World, step: Step, w': World, u: Thread)
    requires Sound(w) && Fine(w, step.t) && Takes(w, step, w') && u != step.t && !step.Delete?
    ensures LeavesAlone(w, w', u) && KeepsFlags(w, w', u)
  {
    hide ScanHeld, Acyclic, BeforeLock, Requested, AfterLock, Times, Acquired, Released;
    match step
    case Request(t, mu) => var id := RequestLeaves(w, t, mu, w');
    case TryRequest(t, mu) => var id := TryRequestLeaves(w, t, mu, w');
    case Unrecord(t, mu) => var id := UnrecordLeaves(w, t, mu, w');
    case Leave(t) => LeaveAlone(w, t, w', u);
    case Enter(t) => EnterAlone(w, t, w', u);
    case TryEnter(t) => EnterAlone(w, t, w', u);
    case _ =>
  }

  lemma EnterAlone(w: World, t: Thread, w': World, u: Thread)
    requires (Enters(w, t, w') || TryEnters(w, t, w')) && u != t
    ensures LeavesAlone(w, w', u)
  {
  }

  lemma LeaveAlone(w: World, t: Thread, w': World, u: Thread)
    requires Sound(w) && Tracked(w, t) && Leaves(w, t, w') && u != t
    ensures LeavesAlone(w, w', u)
  {
    hide Acyclic, Times;
    if At(w, t).owned { LeaverOwns(w, t); }
  }

  /** A thread still owns the lock it is about to leave, if it did when the release was recorded. */
  lemma LeaverOwns(w: World, t: Thread)
    requires Sound(w) && Tracked(w, t) && At(w, t).Leaving? && At(w, t).owned
    ensures Depth(w, t, At(w, t).mu) > 0
  {
    var mu := At(w, t).mu;
    assert Covered(w, t, mu) && Regular(w, t);
    TimesPositive(Held(w.mon, t), IdOf(w, mu));
  }

  lemma ActorFine(w: World, step: Step, w': World)
    requires Sound(w) && Fine(w, step.t) && Takes(w, step, w') && !step.Delete? && !step.Overdue?
    ensures Fine(w', step.t)
  {
    hide Fine, BeforeLock, AfterLock, BeforeTryLock, InLock;
    match step
    case Request(t, mu) => FineRequest(w, t, mu, w');
    case Enter(t) => FineEnter(w, t, w');
    case Record(t) => FineRecord(w, t, w');
    case TryRequest(t, mu) => FineTryRequest(w, t, mu, w');
    case TryEnter(t) => FineEnter(w, t, w');
    case TryFail(t) => FineTryFail(w, t, w');
    case Unrecord(t, mu) => FineUnrecord(w, t, mu, w');
    case Leave(t) => FineLeave(w, t, w');
  }

  /** The watchdog leaves all threads alone. */
  lemma OverdueAlone(w: World, step: Step, w': World, u: Thread)
    requires Takes(w, step, w') && step.Overdue?
    ensures LeavesAlone(w, w', u) && KeepsFlags(w, w', u)
  {
  }

  lemma StepErrors(w: World, step: Step, w': World)
    requires Sound(w) && Fine(w, step.t) && Takes(w, step, w') && ErrorsExplained(w)
    ensures ErrorsExplained(w')
  {
    hide ScanHeld, Acyclic, BeforeLock, Requested, AfterLock, Times, Acquired, Released, Complete, Tracked;
    match step
    case Request(t, mu) =>
      var id := RequestLeaves(w, t, mu, w');
      RequestExtends(w.mon, t, mu, id, w'.mon);
      if |Held(w.mon, t)| >= MAX_LOCKS { RefusalReported(w.mon, t, mu, id, w'.mon); }
    case Unrecord(t, mu) =>
      var i := UnrecordFinds(w, t, mu, w');
      var id := UnrecordLeaves(w, t, mu, w');
      DepthNatural(w, t, mu);
    case TryRequest(t, mu) => var id := TryRequestLeaves(w, t, mu, w');
    case _ =>
  }

  lemma DepthNatural(w: World, t: Thread, mu: Ptr)
    requires Sound(w)
    ensures Depth(w, t, mu) >= 0
  {
  }

  /** A refused request is always reported as an error. */
  lemma RefusalReported(s: State, t: Thread, mu: Ptr, id: Id, s': State)
    requires BeforeLock(s, t, mu, id, s') && |Held(s, t)| >= MAX_LOCKS
    ensures s'.otherError
  {
  }

  /** Every step keeps the invariant. */
  lemma StepKeepsInvariant(w: World, step: Step, w': World)
    requires Invariant(w) && Takes(w, step, w')
    ensures Invariant(w')
  {
    hide Takes, Fine, Sound, ErrorsExplained;
    assert Sound(w) && Fine(w, step.t);
    StepSound(w, step, w');
    StepErrors(w, step, w');
    forall u: Thread ensures Fine(w', u) {
      assert Fine(w, u);
      if step.Delete? {
        DeleteStep(w, step, w');
        FineDelete(w, step.t, step.mu, w', u);
      } else if step.Overdue? {
        OverdueAlone(w, step, w', u);
        Undisturbed(w, w', u);
      } else if u == step.t {
        ActorFine(w, step, w');
      } else {
        OthersAlone(w, step, w', u);
        Undisturbed(w, w', u);
      }
    }
  }

  lemma DeleteStep(w: World, step: Step, w': World)
    requires Takes(w, step, w') && step.Delete?
    ensures Deletes(w, step.t, step.mu, w')
  {
  }

  lemma {:induction false} RunKeepsInvariant(run: seq<World>, steps: seq<Step>, i: nat)
    requires IsRun(run, steps) && i < |run|
    ensures Invariant(run[i])
    decreases i
  {
    hide Invariant, Takes;
    if i == 0 {
      InitInvariant();
    } else {
      RunKeepsInvariant(run, steps, i - 1);
      assert Takes(run[i - 1], steps[i - 1], run[i]);
      StepKeepsInvariant(run[i - 1], steps[i - 1], run[i]);
    }
  }

  lemma InitInvariant()
    ensures Invariant(INIT)
  {
    forall t ensures Regular(INIT, t) && Fine(INIT, t) {
      forall mu ensures Counted(INIT, t, mu) && Covered(INIT, t, mu) {
      }
    }
  }

  /** The id of the lock a blocked thread waits for. */
  function Awaited(w: World, t: Thread): Id {
    if At(w, t).Waiting? then At(w, t).id else 0
  }

  /** Thread t is blocked on a lock that thread u owns. */
  ghost predicate BlockedBy(w: World, t: Thread, u: Thread) {
    t != u && At(w, t).Waiting? && At(w, t).mu in w.owner && w.owner[At(w, t).mu].thread == u
  }

  /** Each thread of the list is blocked by the next one, and the last by the first. */
  ghost predicate IsCircularWait(w: World, c: seq<Thread>) {
    && |c| > 0 && BlockedBy(w, c[|c| - 1], c[0])
    && forall i, j :: 0 <= i && j == i + 1 && j < |c| ==> BlockedBy(w, c[i], c[j])
  }

  /** The monitor misses what thread t waits for: its request was refused at a full table, or the table of the owner has no
      entry for the awaited lock. */
  ghost predicate Missed(w: World, t: Thread) {
    var here := At(w, t);
    here.Waiting? && here.mu in w.owner && (here.id == 0 || Times(Held(w.mon, w.owner[here.mu].thread), here.id) == 0)
  }

  /** When t waits for a lock of u, and u is blocked itself, the lock t waits for is ordered before the one u waits for. */
  lemma WaitOrdered(w: World, t: Thread, u: Thread, v: Thread)
    requires Invariant(w) && !w.mon.potentialDeadlock && BlockedBy(w, t, u) && BlockedBy(w, u, v) && !Missed(w, t) && !Missed(w, u)
    ensures (Awaited(w, t), Awaited(w, u)) in w.mon.edges
  {
    assert Fine(w, t) && Fine(w, u) && Regular(w, u);
    TimesPositive(Held(w.mon, u), At(w, t).id);
    var h :| h in Held(w.mon, u) && h.id == At(w, t).id;
  }

  lemma {:induction false} WaitPath(w: World, c: seq<Thread>, i: nat)
    requires Invariant(w) && !w.mon.potentialDeadlock && IsCircularWait(w, c) && i < |c| && forall k :: 0 <= k < |c| ==> !Missed(w, c[k])
    ensures Reach(w.mon.edges, Awaited(w, c[0]), Awaited(w, c[i]))
    decreases i
  {
    hide Invariant, BlockedBy, Reach, Missed;
    if i == 0 {
      ReachRefl(w.mon.edges, Awaited(w, c[0]));
    } else {
      WaitPath(w, c, i - 1);
      WaitsForNext(w, c, i - 1);
      WaitsForNext(w, c, i);
      WaitOrdered(w, c[i - 1], c[i], NextOf(c, i));
      ReachEdge(w.mon.edges, Awaited(w, c[i - 1]), Awaited(w, c[i]));
      ReachTrans(w.mon.edges, Awaited(w, c[0]), Awaited(w, c[i - 1]), Awaited(w, c[i]));
    }
  }

  /** The next member of a circular list. */
  function NextOf(c: seq<Thread>, k: nat): Thread
    requires k < |c|
  {
    if k + 1 < |c| then c[k + 1] else c[0]
  }

  lemma WaitsForNext(w: World, c: seq<Thread>, k: nat)
    requires IsCircularWait(w, c) && k < |c|
    ensures BlockedBy(w, c[k], NextOf(c, k))
  {
  }

  /** A wait the monitor misses is due to a full table of the waiting thread, or of the blocked thread it waits for. */
  lemma MissedByOverflow(w: World, t: Thread, u: Thread)
    requires Invariant(w) && BlockedBy(w, t, u) && At(w, u).Waiting? && Missed(w, t)
    ensures Overflowed(w, t) || Overflowed(w, u)
  {
    assert Fine(w, t) && Fine(w, u) && Regular(w, u);
    if !Overflowed(w, u) {
      assert Counted(w, u, At(w, t).mu);
    }
  }

  /** The monitor misses what the member waits for, because the table of this member or of the next one has overflowed. */
  ghost predicate Culprit(w: World, c: seq<Thread>, k: int) {
    0 <= k < |c| && Missed(w, c[k]) && (Overflowed(w, c[k]) || Overflowed(w, NextOf(c, k)))
  }

  /** While no potential deadlock has been reported, every circular wait has a member whose wait the monitor misses, because
      its own table or that of the thread it waits for has overflowed. */
  lemma CircularWaitMissed(w: World, c: seq<Thread>)
    requires Invariant(w) && !w.mon.potentialDeadlock && IsCircularWait(w, c)
    ensures exists k :: Culprit(w, c, k)
  {
    hide Invariant, BlockedBy, Missed, Reach, IsCircularWait;
    if k :| 0 <= k < |c| && Missed(w, c[k]) {
      WaitsForNext(w, c, k);
      NextWaits(w, c, k);
      MissedByOverflow(w, c[k], NextOf(c, k));
      assert Culprit(w, c, k);
    } else {
      NoneMissed(w, c);
    }
  }

  lemma NextWaits(w: World, c: seq<Thread>, k: nat)
    requires IsCircularWait(w, c) && k < |c|
    ensures At(w, NextOf(c, k)).Waiting?
  {
    var m := if k + 1 < |c| then k + 1 else 0;
    WaitsForNext(w, c, m);
  }

  /** When the monitor misses none of the waits, the awaited locks would be on a cycle of the graph. */
  lemma NoneMissed(w: World, c: seq<Thread>)
    requires Invariant(w) && !w.mon.potentialDeadlock && forall k :: 0 <= k < |c| ==> !Missed(w, c[k])
    ensures !IsCircularWait(w, c)
  {
    hide Missed, Reach, Fine;
    if IsCircularWait(w, c) && |c| > 1 {
      var n := |c| - 1;
      WaitPath(w, c, n);
      WaitOrdered(w, c[n], c[0], c[1]);
    }
  }

  /** While no potential deadlock has been reported there is no circular wait among threads whose tables have not overflowed. */
  lemma NoCircularWait(w: World, c: seq<Thread>)
    requires Invariant(w) && !w.mon.potentialDeadlock && forall t :: t in c ==> !Overflowed(w, t)
    ensures !IsCircularWait(w, c)
  {
    forall k ensures !Culprit(w, c, k) {
      assert 0 <= k < |c| ==> c[k] in c && NextOf(c, k) in c;
    }
    if IsCircularWait(w, c) { CircularWaitMissed(w, c); }
  }

  /** The detector is sound over whole runs: in every state of every interleaving of any number of threads, a circular wait has
      been preceded by a report of a potential deadlock, or one of its members waits for a lock that the overflow of its own
      table, or of that of the thread it waits for, has kept the monitor from noting. Unless a request for a lock already owned
      has met another lock first in the table, a potential deadlock is reported only when the threads have really taken locks
      in a circular order. Other errors are reported exactly for refused requests, for leaving a lock that is not owned, and
      by the watchdog, as long as no full table has dropped a lock. */
  lemma DetectorSound(run: seq<World>, steps: seq<Step>, i: nat)
    requires IsRun(run, steps) && i < |run|
    ensures !run[i].mon.potentialDeadlock ==> forall c :: IsCircularWait(run[i], c) ==> exists k :: Culprit(run[i], c, k)
    ensures !run[i].past.inverted ==> Justified(run[i].mon.edges, run[i].mon.potentialDeadlock, run[i].past.orders)
    ensures Justified(run[i].mon.edges, run[i].mon.potentialDeadlock, run[i].past.requests)
    ensures ErrorsExplained(run[i])
  {
    hide IsCircularWait, Culprit, Justified, ErrorsExplained;
    RunKeepsInvariant(run, steps, i);
    if !run[i].mon.potentialDeadlock {
      forall c | IsCircularWait(run[i], c) ensures exists k :: Culprit(run[i], c, k) {
        CircularWaitMissed(run[i], c);
      }
    }
  }

  /** Step k is a request that was not refused, for a lock from which the graph, as it was before, leads to one of the live locks
      in the thread's table that the scan gets to. */
  ghost predicate ReportsAt(run: seq<World>, steps: seq<Step>, k: int) {
    && 0 <= k < |steps| && k + 1 < |run| && steps[k].Request? && |Held(run[k].mon, steps[k].t)| < MAX_LOCKS
    && var t, live := steps[k].t, run[k + 1].mon.cur.Values;
       At(run[k + 1], t).Waiting? && var id := At(run[k + 1], t).id;
       ReportDue(run[k].mon.edges, live, Scanned(live, Held(run[k].mon, t), id), id)
  }

  lemma StepReports(run: seq<World>, steps: seq<Step>, k: nat)
    requires k < |steps| && k + 1 < |run| && Takes(run[k], steps[k], run[k + 1])
    ensures run[k + 1].mon.potentialDeadlock <==> run[k].mon.potentialDeadlock || ReportsAt(run, steps, k)
  {
    hide ScanHeld, Scanned, ReportDue, Requested;
    match steps[k] {
      case Request(t, mu) =>
        var w, w' := run[k], run[k + 1];
        var id :| BeforeLock(w.mon, t, mu, id, w'.mon) && Asks(w, t, mu, id, w');
        if |Held(w.mon, t)| < MAX_LOCKS {
          var s1 :| Identified(w.mon, mu, id, s1) &&
                    var scan := ScanHeld(s1.edges, s1.cur.Values, Held(w.mon, t), id);
                    w'.mon == s1.(edges := scan.edges, potentialDeadlock := w.mon.potentialDeadlock || scan.reported);
          ReportExact(w.mon.edges, s1.cur.Values, Held(w.mon, t), id);
        }
      case _ =>
    }
  }

  /** Exactly when a potential deadlock has been reported, over whole runs. */
  lemma {:induction false} PotentialDeadlockExact(run: seq<World>, steps: seq<Step>, i: nat)
    requires IsRun(run, steps) && i < |run|
    ensures run[i].mon.potentialDeadlock <==> exists k :: 0 <= k < i && ReportsAt(run, steps, k)
    decreases i
  {
    hide Takes, ReportsAt;
    if i > 0 {
      var j := i - 1;
      PotentialDeadlockExact(run, steps, j);
      assert Takes(run[j], steps[j], run[i]);
      StepReports(run, steps, j);
    }
  }

  /** For a lock the thread does not own, an unrefused request is reported iff the graph leads from that lock to any lock in
      the thread's table. */
  lemma UnownedRequestReports(w: World, t: Thread, mu: Ptr, w': World)
    requires Invariant(w) && Requests(w, t, mu, w') && Depth(w, t, mu) == 0 && |Held(w.mon, t)| < MAX_LOCKS
    ensures w'.mon.potentialDeadlock <==>
              w.mon.potentialDeadlock || exists h :: h in Held(w.mon, t) && Reach(w.mon.edges, At(w', t).id, h.id)
  {
    hide ScanHeld, Reach, Requested;
    var held := Held(w.mon, t);
    var id :| BeforeLock(w.mon, t, mu, id, w'.mon) && Asks(w, t, mu, id, w');
    var s1 :| Identified(w.mon, mu, id, s1) &&
              var scan := ScanHeld(s1.edges, s1.cur.Values, held, id);
              w'.mon == s1.(edges := scan.edges, potentialDeadlock := w.mon.potentialDeadlock || scan.reported);
    assert Fine(w, t) && Covered(w, t, mu) && Regular(w, t);
    IdentifiedNamed(w.mon, mu, id, s1);
    var i := RequestLeaves(w, t, mu, w');
    SameCounts(w, w', t);
    TimesPositive(held, id);
    forall h | h in held ensures h.id != id && h.id in s1.cur.Values {
      assert s1.cur[h.mu] == h.id;
    }
    ReportWhenNotHeld(w.mon.edges, s1.cur.Values, held, id);
  }

  /** Every edge in the graph goes back to a moment when some thread held its source while requesting its target. */
  lemma EdgesJustified(run: seq<World>, steps: seq<Step>, i: nat, a: Id, b: Id)
    requires IsRun(run, steps) && i < |run| && (a, b) in run[i].mon.edges
    ensures exists k :: Justifies(run, steps, k, i, a, b)
  {
    RunKeepsInvariant(run, steps, i);
    RequestsJustified(run, steps, i, a, b);
  }

  /** Step k, before state i, was the request of lock b by a thread whose table had lock a. */
  ghost predicate Justifies(run: seq<World>, steps: seq<Step>, k: int, i: int, a: Id, b: Id) {
    && 0 <= k < i < |run| && k < |steps| && steps[k].Request?
    && At(run[k + 1], steps[k].t).Waiting? && At(run[k + 1], steps[k].t).id == b
    && exists h :: h in Held(run[k].mon, steps[k].t) && h.id == a
  }

  lemma {:induction false} RequestsJustified(run: seq<World>, steps: seq<Step>, i: nat, a: Id, b: Id)
    requires IsRun(run, steps) && i < |run| && (a, b) in run[i].past.requests
    ensures exists k :: Justifies(run, steps, k, i, a, b)
    decreases i
  {
    if i > 0 {
      assert Takes(run[i - 1], steps[i - 1], run[i]);
      if (a, b) in run[i - 1].past.requests {
        RequestsJustified(run, steps, i - 1, a, b);
        var k :| Justifies(run, steps, k, i - 1, a, b);
        assert Justifies(run, steps, k, i, a, b);
      } else {
        assert Justifies(run, steps, i - 1, i, a, b);
      }
    }
  }

  /** Every pair in the order of locks goes back to a moment when some thread held the first and requested the second, which
      it did not own. */
  lemma {:induction false} OrdersJustified(run: seq<World>, steps: seq<Step>, i: nat, a: Id, b: Id)
    requires IsRun(run, steps) && i < |run| && (a, b) in run[i].past.orders
    ensures exists k :: Justifies(run, steps, k, i, a, b) && Depth(run[k], steps[k].t, steps[k].mu) == 0
    decreases i
  {
    if i > 0 {
      assert Takes(run[i - 1], steps[i - 1], run[i]);
      if (a, b) in run[i - 1].past.orders {
        OrdersJustified(run, steps, i - 1, a, b);
        var k :| Justifies(run, steps, k, i - 1, a, b) && Depth(run[k], steps[k].t, steps[k].mu) == 0;
        assert Justifies(run, steps, k, i, a, b);
      } else {
        RunKeepsInvariant(run, steps, i - 1);
        assert Justifies(run, steps, i - 1, i, a, b);
      }
    }
  }
}
