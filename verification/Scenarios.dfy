/** Building runs of the protocol step by step. In these runs the id of a lock is its address. */
module Scenarios {
  import opened Digraphs
  import opened GraphIds
  import opened HeldLocks
  import opened LockOrder
  import opened Protocol

  function Current(run: seq<World>): World
    requires run != []
  {
    run[|run| - 1]
  }

  lemma Extend(run: seq<World>, steps: seq<Step>, step: Step, w: World)
    requires IsRun(run, steps) && Takes(Current(run), step, w)
    ensures IsRun(run + [w], steps + [step]) && Current(run + [w]) == w
  {
  }

  lemma Grow(run: seq<World>, steps: seq<Step>, step: Step, w: World) returns (run': seq<World>, steps': seq<Step>)
    requires run != [] && IsRun(run, steps) && Takes(Current(run), step, w)
    ensures run' != [] && IsRun(run', steps') && Current(run') == w && run' == run + [w] && steps' == steps + [step]
  {
    Extend(run, steps, step, w);
    run', steps' := run + [w], steps + [step];
  }

  /** The table of a thread that has acquired the locks 1 to k once each. */
  function Table(k: nat): (t: seq<Lock>)
    ensures |t| == k && forall i :: 0 <= i < k ==> t[i] == Lock(i + 1, 1, i + 1)
  {
    seq(k, i requires 0 <= i => Lock(i + 1, 1, i + 1))
  }

  lemma TableLookup(k: nat, id: Id)
    ensures IndexOf(Table(k), id) == if 1 <= id <= k then id - 1 else k
  {
    var i := IndexOf(Table(k), id);
    if 1 <= id <= k { assert Table(k)[id - 1].id == id; }
  }

  lemma AcquireNext(k: nat)
    requires k <= MAX_LOCKS
    ensures Acquired(Table(k), k + 1, k + 1) == if k < MAX_LOCKS then Table(k + 1) else Table(k)
    ensures Times(Table(k), k + 1) == 0
  {
    TableLookup(k, k + 1);
  }

  lemma ReleaseLast(k: nat)
    requires k > 0
    ensures Released(Table(k), k) == Table(k - 1) && Times(Table(k), k) == 1
  {
    TableLookup(k, k);
  }

  /** The lock is known under its address, or not known at all. */
  ghost predicate Plain(s: State, mu: Id) {
    mu != 0 && if mu in s.cur then s.cur[mu] == mu && mu in s.issued else mu !in s.issued
  }

  ghost function Looked(s: State, mu: Id): State {
    s.(cur := s.cur[mu := mu], issued := s.issued + {mu})
  }

  lemma LookedUp(s: State, mu: Id)
    requires Plain(s, mu)
    ensures Identified(s, mu, mu, Looked(s, mu))
  {
    if mu in s.cur { assert Looked(s, mu) == s; }
  }

  ghost function Tried(w: World, t: Thread, mu: Id): World {
    w.(mon := Looked(w.mon, mu), pc := w.pc[t := Trying(mu, mu)])
  }

  lemma TryRequestTaken(w: World, t: Thread, mu: Id)
    requires At(w, t) == Idle && Plain(w.mon, mu)
    ensures Takes(w, TryRequest(t, mu), Tried(w, t, mu))
  {
    LookedUp(w.mon, mu);
    assert BeforeTryLock(w.mon, mu, mu, Tried(w, t, mu).mon);
  }

  /** The thread asks for lock `mu`. */
  ghost function Asked(w: World, t: Thread, mu: Id): World {
    var s, held, owned := Looked(w.mon, mu), Held(w.mon, t), Depth(w, t, mu) > 0;
    var scan := ScanHeld(s.edges, s.cur.Values, held, mu);
    w.(mon := s.(edges := scan.edges, potentialDeadlock := s.potentialDeadlock || scan.reported), pc := w.pc[t := Waiting(mu, mu)],
       past := w.past.(inverted := w.past.inverted || Inverts(held, mu, owned), requests := w.past.requests + Requested(held, mu),
                       orders := if owned then w.past.orders else w.past.orders + Requested(held, mu)))
  }

  lemma RequestTaken(w: World, t: Thread, mu: Id)
    requires At(w, t) == Idle && Plain(w.mon, mu) && |Held(w.mon, t)| < MAX_LOCKS
    ensures Takes(w, Request(t, mu), Asked(w, t, mu))
  {
    hide ScanHeld, Requested, Inverts;
    var w' := Asked(w, t, mu);
    LookedUp(w.mon, mu);
    assert BeforeLock(w.mon, t, mu, mu, w'.mon) && Asks(w, t, mu, mu, w');
  }

  ghost function InsideOf(w: World, t: Thread, mu: Id): World {
    w.(owner := Take(w.owner, t, mu), pc := w.pc[t := Entered(mu, mu)])
  }

  lemma EnterTaken(w: World, t: Thread, mu: Id)
    requires Enterable(w, t, mu) && mu != 0
    ensures At(w, t) == Trying(mu, mu) ==> Takes(w, TryEnter(t), InsideOf(w, t, mu))
    ensures At(w, t) == Waiting(mu, mu) ==> Takes(w, Enter(t), InsideOf(w, t, mu))
  {
  }

  ghost function Noted(w: World, t: Thread, mu: Id): World {
    w.(mon := InLock(w.mon, t, mu, mu), pc := w.pc[t := Idle],
       past := if |Held(w.mon, t)| == MAX_LOCKS && Times(Held(w.mon, t), mu) == 0 then w.past.(dropped := w.past.dropped + {t}) else w.past)
  }

  lemma RecordTaken(w: World, t: Thread, mu: Id)
    requires At(w, t) == Entered(mu, mu)
    ensures Takes(w, Record(t), Noted(w, t, mu))
  {
  }

  ghost function Forgotten(w: World, t: Thread, mu: Id): World {
    var held, owned := Held(w.mon, t), Depth(w, t, mu) > 0;
    w.(mon := w.mon.(held := SetHeld(w.mon.held, t, Released(held, mu)), otherError := w.mon.otherError || Times(held, mu) == 0),
       pc := w.pc[t := Leaving(mu, owned)], past := w.past.(strayed := w.past.strayed || Depth(w, t, mu) == 0))
  }

  lemma UnrecordTaken(w: World, t: Thread, mu: Id)
    requires At(w, t) == Idle && mu != 0 && mu in w.mon.cur && w.mon.cur[mu] == mu
    ensures Takes(w, Unrecord(t, mu), Forgotten(w, t, mu))
  {
    hide Times, Released;
    assert Identified(w.mon, mu, mu, w.mon);
    assert AfterLock(w.mon, t, mu, Forgotten(w, t, mu).mon);
  }

  ghost function Left(w: World, t: Thread, mu: Id, owned: bool): World
    requires owned ==> mu in w.owner
  {
    w.(owner := if owned then Give(w.owner, mu) else w.owner, pc := w.pc[t := Idle])
  }

  lemma LeaveTaken(w: World, t: Thread, mu: Id, owned: bool)
    requires At(w, t) == Leaving(mu, owned) && (owned ==> mu in w.owner)
    ensures Takes(w, Leave(t), Left(w, t, mu, owned))
  {
  }

  /** A node without outgoing edges reaches only itself. */
  lemma DeadEnd(e: Edges, a: int, b: int)
    requires Reach(e, a, b) && forall p :: p in e ==> p.0 != a
    ensures a == b
  {
    assert forall v :: (a, v) in e ==> (a, v).0 != a;
    ClosedReach(e, iset{a}, a, b);
  }

  /** A request for a lock that no edge leaves, and that is not held, is not reported; all live held locks are ordered before it. */
  lemma Unreported(e: Edges, live: set<Id>, t: seq<Lock>, id: Id)
    requires (forall p :: p in e ==> p.0 != id) && forall h :: h in t ==> h.id != id
    ensures var scan := ScanHeld(e, live, t, id);
            !scan.reported && scan.edges == e + set h | h in t && h.id in live :: (h.id, id)
  {
    hide Reach, ScanHeld;
    ReportExact(e, live, t, id);
    if h :| h in Scanned(live, t, id) && h.id in live && Reach(e, id, h.id) {
      DeadEnd(e, id, h.id);
    }
    ScannedAll(live, t, id);
    UnreportedEdges(e, live, t, id);
  }
}
