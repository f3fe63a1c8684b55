/** How long, over whole runs, the place of a lock in a table and the id of a lock last. */
module Lifetimes {
  import opened Digraphs
  import opened GraphIds
  import GraphNodes
  import opened HeldLocks
  import opened LockOrder
  import opened Protocol

  /** Recording an acquisition never moves the first entry of a table. */
  lemma AcquireKeepsFirst(held: seq<Lock>, mu: GraphNodes.Ptr, id: Id)
    requires IsHeldTable(held) && held != []
    ensures var u := Acquired(held, mu, id); u != [] && u[0].id == held[0].id && u[0].mu == held[0].mu
  {
    AcquireInPlace(held, mu, id);
    hide Acquired;
  }

  /** Nor does recording a release, unless it is the last release of that entry. */
  lemma ReleaseKeepsFirst(held: seq<Lock>, id: Id)
    requires IsHeldTable(held) && held != [] && exists h :: h in Released(held, id) && h.id == held[0].id
    ensures var u := Released(held, id); u != [] && u[0].id == held[0].id && u[0].mu == held[0].mu
  {
    ReleaseInPlace(held, id);
    hide Released;
    if i :| 0 <= i < |held| && held[i].id == id {
      assert held[i].count > 0;
    } else {
      assert forall e :: e in held ==> e.id != id;
    }
  }

  /** Every step leaves the first entry of a table where it is, as long as the lock is not given up. */
  lemma FirstStays(w: World, step: Step, w': World, t: Thread)
    requires Invariant(w) && Takes(w, step, w') && Held(w.mon, t) != []
    requires exists h :: h in Held(w'.mon, t) && h.id == Held(w.mon, t)[0].id
    ensures var first, first' := Held(w.mon, t)[0], Held(w'.mon, t)[0]; first'.id == first.id && first'.mu == first.mu
  {
    hide ScanHeld, Acyclic, Requested, Acquired, Released, Times, IsHeldTable, Named, BeforeLock, Fine;
    var held := Held(w.mon, t);
    assert Fine(w, step.t) && Regular(w, t);
    match step
    case Request(u, mu) => var id := RequestLeaves(w, u, mu, w');
    case TryRequest(u, mu) => var id := TryRequestLeaves(w, u, mu, w');
    case Record(u) => if u == t { AcquireKeepsFirst(held, At(w, t).mu, At(w, t).id); }
    case Unrecord(u, mu) =>
      assert Tracked(w, u) by { FineTracked(w, u); }
      var id := UnrecordLeaves(w, u, mu, w');
      if u == t {
        assert Held(w'.mon, t) == Released(held, id);
        ReleaseKeepsFirst(held, id);
      }
    case _ =>
  }

  lemma FineTracked(w: World, t: Thread)
    requires Fine(w, t)
    ensures Tracked(w, t)
  {
  }

  /** From state i to state j the thread has had an entry for its first lock all along. */
  ghost predicate Keeps(run: seq<World>, i: nat, j: nat, t: Thread)
    requires i <= j < |run| && Held(run[i].mon, t) != []
  {
    forall k :: i <= k <= j ==> exists h :: h in Held(run[k].mon, t) && h.id == Held(run[i].mon, t)[0].id
  }

  lemma {:induction false} FirstOverRun(run: seq<World>, steps: seq<Step>, i: nat, j: nat, t: Thread)
    requires IsRun(run, steps) && i <= j < |run| && Held(run[i].mon, t) != [] && Keeps(run, i, j, t)
    ensures Held(run[j].mon, t) != []
    ensures var first, first' := Held(run[i].mon, t)[0], Held(run[j].mon, t)[0]; first'.id == first.id && first'.mu == first.mu
    decreases j
  {
    hide Takes, Invariant;
    if i < j {
      var k := j - 1;
      FirstOverRun(run, steps, i, k, t);
      RunKeepsInvariant(run, steps, k);
      assert Takes(run[k], steps[k], run[j]);
      FirstStays(run[k], steps[k], run[j], t);
    }
  }

  /** A thread that has not given up the first lock of its table can always request it again, however often it has entered and
      left other locks or this one meanwhile: there is no report and no new edge. */
  lemma ReentryUnreported(run: seq<World>, steps: seq<Step>, i: nat, j: nat, t: Thread)
    requires IsRun(run, steps) && i <= j < |steps| && Held(run[i].mon, t) != [] && Keeps(run, i, j, t)
    requires steps[j] == Request(t, Held(run[i].mon, t)[0].mu)
    ensures run[j + 1].mon.edges == run[j].mon.edges && run[j + 1].mon.potentialDeadlock == run[j].mon.potentialDeadlock
  {
    FirstOverRun(run, steps, i, j, t);
    RunKeepsInvariant(run, steps, j);
    var n := j + 1;
    assert Takes(run[j], steps[j], run[n]);
    FirstRequested(run[j], t, Held(run[i].mon, t)[0].mu, run[n]);
  }

  lemma FirstRequested(w: World, t: Thread, mu: GraphNodes.Ptr, w': World)
    requires Invariant(w) && Requests(w, t, mu, w') && Held(w.mon, t) != [] && Held(w.mon, t)[0].mu == mu
    ensures w'.mon.edges == w.mon.edges && w'.mon.potentialDeadlock == w.mon.potentialDeadlock
  {
    hide ScanHeld, Acyclic, Requested, BeforeLock;
    var id := RequestLeaves(w, t, mu, w');
    var held := Held(w.mon, t);
    assert held[0] in held && Fine(w, t);
    var m := BeforeLockExact(w.mon, t, mu, id, w'.mon);
    ReentryIgnored(w.mon, t, mu, id, w'.mon);
  }

  /** Nothing in the state has to do with this id, which has been given out once: it is the id of no lock, on no edge, in no
      table, and no thread has been handed it. */
  ghost predicate Forgotten(w: World, id: Id) {
    && id != 0 && id in w.mon.issued && (forall p :: p in w.mon.cur ==> w.mon.cur[p] != id)
    && (forall a, b :: (a, b) in w.mon.edges ==> a != id && b != id)
    && (forall t, h :: h in Held(w.mon, t) ==> h.id != id)
    && (forall t :: At(w, t).Waiting? || At(w, t).Entered? || At(w, t).Trying? ==> At(w, t).id != id)
  }

  /** An id that no lock has is in no table, and no thread has been handed it. */
  lemma NowhereElse(w: World, id: Id)
    requires Invariant(w) && id != 0 && forall p :: p in w.mon.cur ==> w.mon.cur[p] != id
    ensures forall t, h :: h in Held(w.mon, t) ==> h.id != id
    ensures forall t :: At(w, t).Waiting? || At(w, t).Entered? || At(w, t).Trying? ==> At(w, t).id != id
  {
    hide Sound;
    forall t ensures (forall h :: h in Held(w.mon, t) ==> h.id != id) {
      assert Fine(w, t);
    }
    forall t | At(w, t).Waiting? || At(w, t).Entered? || At(w, t).Trying? ensures At(w, t).id != id {
      assert Fine(w, t);
    }
  }

  lemma StepIsRegistryStep(w: World, step: Step, w': World)
    requires Takes(w, step, w')
    ensures RegistryStep(w.mon, w'.mon)
  {
    hide BeforeLock, AfterLock, RegistryStep;
    match step {
      case Request(t, mu) =>
        var id :| BeforeLock(w.mon, t, mu, id, w'.mon) && Asks(w, t, mu, id, w');
        CallsAreRegistrySteps(w.mon, t, mu, id, w'.mon);
      case Record(t) => CallsAreRegistrySteps(w.mon, t, At(w, t).mu, At(w, t).id, w'.mon);
      case TryRequest(t, mu) =>
        var id :| BeforeTryLock(w.mon, mu, id, w'.mon) && w' == w.(mon := w'.mon, pc := w.pc[t := Trying(mu, id)]);
        CallsAreRegistrySteps(w.mon, t, mu, id, w'.mon);
      case Unrecord(t, mu) => CallsAreRegistrySteps(w.mon, t, mu, 0, w'.mon);
      case Delete(t, mu) => CallsAreRegistrySteps(w.mon, t, mu, 0, w'.mon);
      case _ => NoRegistryStep(w.mon, w'.mon);
    }
  }

  lemma NoRegistryStep(s: State, s': State)
    requires s'.cur == s.cur && s'.issued == s.issued
    ensures RegistryStep(s, s')
  {
  }

  /** No step puts an edge at an id that no lock has. */
  lemma StaysOffEdges(w: World, step: Step, w': World, id: Id)
    requires Takes(w, step, w') && Named(w.mon.cur, w.mon.issued) && id !in w'.mon.cur.Values
    requires forall a, b :: (a, b) in w.mon.edges ==> a != id && b != id
    ensures forall a, b :: (a, b) in w'.mon.edges ==> a != id && b != id
  {
    hide BeforeLock, AfterLock, Requested, Named, Reach;
    match step {
      case Request(t, mu) =>
        var i :| BeforeLock(w.mon, t, mu, i, w'.mon) && Asks(w, t, mu, i, w');
        var m := BeforeLockExact(w.mon, t, mu, i, w'.mon);
        if |Held(w.mon, t)| < 20 {
          assert w'.mon.cur[mu] == i;
        }
      case Unrecord(t, mu) => EdgesKept(w.mon, t, mu, w'.mon);
      case Delete(t, mu) => DeleteLockExact(w.mon, mu);
      case _ =>
    }
  }

  lemma EdgesKept(s: State, t: Thread, mu: GraphNodes.Ptr, s': State)
    requires AfterLock(s, t, mu, s')
    ensures s'.edges == s.edges
  {
  }

  lemma StaysForgotten(w: World, step: Step, w': World, id: Id)
    requires Invariant(w) && Invariant(w') && Takes(w, step, w') && Forgotten(w, id)
    ensures Forgotten(w', id)
  {
    hide Takes;
    assert Named(w.mon.cur, w.mon.issued) && Named(w'.mon.cur, w'.mon.issued);
    hide Invariant, Named;
    StepIsRegistryStep(w, step, w');
    StaysSpent(w.mon, w'.mon, id);
    hide RegistryStep;
    StaysOffEdges(w, step, w', id);
    assert forall p :: p in w'.mon.cur ==> w'.mon.cur[p] in w'.mon.cur.Values;
    NowhereElse(w', id);
  }

  lemma DeleteForgets(w: World, t: Thread, mu: GraphNodes.Ptr, w': World)
    requires Invariant(w) && Invariant(w') && Deletes(w, t, mu, w') && mu in w.mon.cur
    ensures Forgotten(w', w.mon.cur[mu])
  {
    assert Named(w.mon.cur, w.mon.issued);
    hide Invariant;
    var id := w.mon.cur[mu];
    DeleteLockExact(w.mon, mu);
    hide Named;
    assert forall p :: p in w'.mon.cur ==> w'.mon.cur[p] in w'.mon.cur.Values;
    NowhereElse(w', id);
  }

  /** Once a lock has been deleted, nothing ever has to do with its former id again, whatever is created at its address. */
  lemma {:induction false} DeletedForGood(run: seq<World>, steps: seq<Step>, k: nat, j: nat)
    requires IsRun(run, steps) && k < j < |run| && steps[k].Delete? && steps[k].mu in run[k].mon.cur
    ensures Forgotten(run[j], run[k].mon.cur[steps[k].mu])
    decreases j
  {
    hide Takes, Invariant, Forgotten;
    var i := j - 1;
    RunKeepsInvariant(run, steps, i);
    RunKeepsInvariant(run, steps, j);
    assert Takes(run[i], steps[i], run[j]);
    if k == i {
      DeleteStep(run[i], steps[i], run[j]);
      DeleteForgets(run[i], steps[i].t, steps[i].mu, run[j]);
    } else {
      DeletedForGood(run, steps, k, i);
      StaysForgotten(run[i], steps[i], run[j], run[k].mon.cur[steps[k].mu]);
    }
  }
}
