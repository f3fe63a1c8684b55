/** What the deadlock monitor does to the lock-order graph, the ids and the held-lock tables. */
module LockOrder {
  import opened Digraphs
  import opened GraphIds
  import opened GraphNodes
  import opened HeldLocks

  type Thread = nat

  /** The monitor's state: the lock-order graph over ids, the ids of the known locks, all ids ever issued,
      each thread's held locks, and the two sticky error flags. */
  datatype State = State(
    edges: Edges, cur: map<Ptr, Id>, issued: set<Id>, held: map<Thread, seq<Lock>>,
    potentialDeadlock: bool, otherError: bool)

  const START := State({}, map[], {}, map[], false, false)

  function Held(s: State, t: Thread): seq<Lock> {
    if t in s.held then s.held[t] else []
  }

  /** The tables after that of thread t has become `table`; threads without locks have no entry. */
  function SetHeld(held: map<Thread, seq<Lock>>, t: Thread, table: seq<Lock>): map<Thread, seq<Lock>> {
    if table == [] then held - {t} else held[t := table]
  }

  /** Ids of different locks differ, and all of them have been issued. */
  ghost predicate Named(cur: map<Ptr, Id>, issued: set<Id>) {
    && (forall p :: p in cur ==> cur[p] in issued && cur[p] != 0)
    && (forall p, q :: p in cur && q in cur && cur[p] == cur[q] ==> p == q)
  }

  /** Looking up lock `mu`: a lock not yet known gets an id that was never issued. */
  ghost predicate Identified(s: State, mu: Ptr, id: Id, s': State) {
    if mu in s.cur then id == s.cur[mu] && s' == s
    else id !in s.issued && id != 0 && s' == s.(cur := s.cur[mu := id], issued := s.issued + {id})
  }

  lemma IdentifiedNamed(s: State, mu: Ptr, id: Id, s': State)
    requires Named(s.cur, s.issued) && Identified(s, mu, id, s')
    ensures Named(s'.cur, s'.issued) && s.cur.Keys <= s'.cur.Keys && mu in s'.cur && s'.cur[mu] == id && id != 0
    ensures forall p :: p in s.cur ==> s'.cur[p] == s.cur[p]
    ensures forall p :: p in s'.cur && p !in s.cur ==> p == mu && id !in s.issued
  {
  }

  datatype Scan = Scan(edges: Edges, reported: bool)

  /** The loop over the locks already held: entries of forgotten locks are skipped, meeting the requested
      lock itself ends the loop, and so does an edge that would close a cycle. */
  ghost function ScanHeld(edges: Edges, live: set<Id>, t: seq<Lock>, id: Id): Scan
    decreases |t|
  {
    if t == [] then Scan(edges, false)
    else if t[0].id !in live then ScanHeld(edges, live, t[1..], id)
    else if t[0].id == id then Scan(edges, false)
    else if Reach(edges, id, t[0].id) then Scan(edges, true)
    else ScanHeld(edges + {(t[0].id, id)}, live, t[1..], id)
  }

  /** Before a lock is entered: full tables are an error and leave the lock unmonitored (id 0). */
  ghost predicate BeforeLock(s: State, t: Thread, mu: Ptr, id: Id, s': State) {
    if |Held(s, t)| >= MAX_LOCKS then id == 0 && s' == s.(otherError := true)
    else exists s1 :: Identified(s, mu, id, s1) &&
           var scan := ScanHeld(s1.edges, s1.cur.Values, Held(s, t), id);
           s' == s1.(edges := scan.edges, potentialDeadlock := s.potentialDeadlock || scan.reported)
  }

  /** After a lock has been entered. */
  function InLock(s: State, t: Thread, mu: Ptr, id: Id): State {
    s.(held := SetHeld(s.held, t, Acquired(Held(s, t), mu, id)))
  }

  /** Before a lock is left: releasing what is not in the table is an error. */
  ghost predicate AfterLock(s: State, t: Thread, mu: Ptr, s': State) {
    exists id, s1 :: Identified(s, mu, id, s1) &&
      s' == s1.(held := SetHeld(s.held, t, Released(Held(s, t), id)), otherError := s.otherError || Times(Held(s, t), id) == 0)
  }

  /** Before a lock is tried: no order is recorded, since a try does not wait. */
  ghost predicate BeforeTryLock(s: State, mu: Ptr, id: Id, s': State) {
    Identified(s, mu, id, s')
  }

  /** A lock is deleted. */
  ghost function DeleteLock(s: State, mu: Ptr): State {
    if mu !in s.cur then s
    else s.(cur := s.cur - {mu}, edges := Detached(s.edges, s.cur[mu]))
  }

  /** The watchdog reports a thread. */
  function WatchdogError(s: State): State {
    s.(otherError := true)
  }

  /** Entries before the first live one for `id` itself. */
  ghost function Scanned(live: set<Id>, t: seq<Lock>, id: Id): seq<Lock>
    ensures forall h :: h in Scanned(live, t, id) ==> h in t && (h.id in live ==> h.id != id)
  {
    if t == [] || (t[0].id in live && t[0].id == id) then [] else [t[0]] + Scanned(live, t[1..], id)
  }

  lemma ScannedAll(live: set<Id>, t: seq<Lock>, id: Id)
    requires forall h :: h in t ==> h.id != id
    ensures Scanned(live, t, id) == t
  {
    if t != [] {
      assert t == [t[0]] + t[1..];
    }
  }

  ghost predicate ReportDue(edges: Edges, live: set<Id>, scanned: seq<Lock>, id: Id) {
    exists h :: h in scanned && h.id in live && Reach(edges, id, h.id)
  }

  /** An edge into `id` from a node that `id` does not reach changes nothing about what `id` reaches. */
  lemma InEdgesIrrelevant(e: Edges, h: Id, id: Id, v: Id)
    ensures Reach(e + {(h, id)}, id, v) <==> Reach(e, id, v)
  {
    ReachAddEdge(e, h, id, id, v);
  }

  /** The exact report condition: a request is reported iff, in the graph as it was before the request, the
      requested lock already leads to one of the live held locks that the loop gets to; edges added earlier
      in the same loop make no difference. */
  lemma {:induction false} ReportExact(e: Edges, live: set<Id>, t: seq<Lock>, id: Id)
    ensures ScanHeld(e, live, t, id).reported <==> ReportDue(e, live, Scanned(live, t, id), id)
    decreases |t|
  {
    if t != [] && !(t[0].id in live && t[0].id == id) {
      var rest := Scanned(live, t[1..], id);
      assert Scanned(live, t, id) == [t[0]] + rest;
      if t[0].id !in live {
        ReportExact(e, live, t[1..], id);
      } else if !Reach(e, id, t[0].id) {
        var e' := e + {(t[0].id, id)};
        ReportExact(e', live, t[1..], id);
        forall h | h in rest ensures Reach(e', id, h.id) <==> Reach(e, id, h.id) {
          InEdgesIrrelevant(e, t[0].id, id, h.id);
        }
      } else {
        assert t[0] in [t[0]] + rest;
      }
    }
  }

  /** For a lock the thread does not hold yet: it is reported iff it already leads to some live lock the thread holds. */
  lemma ReportWhenNotHeld(e: Edges, live: set<Id>, t: seq<Lock>, id: Id)
    requires forall h :: h in t ==> h.id != id
    ensures ScanHeld(e, live, t, id).reported <==> exists h :: h in t && h.id in live && Reach(e, id, h.id)
  {
    hide ScanHeld, Reach;
    ScannedAll(live, t, id);
    ReportExact(e, live, t, id);
  }

  /** An unreported request leaves the graph with an edge from every live held lock it got to, and no other new edge. */
  lemma {:induction false} UnreportedEdges(e: Edges, live: set<Id>, t: seq<Lock>, id: Id)
    requires !ScanHeld(e, live, t, id).reported
    ensures ScanHeld(e, live, t, id).edges == e + (set h | h in Scanned(live, t, id) && h.id in live :: (h.id, id))
    decreases |t|
  {
    if t != [] && !(t[0].id in live && t[0].id == id) {
      var rest := Scanned(live, t[1..], id);
      assert Scanned(live, t, id) == [t[0]] + rest;
      UnreportedEdges(if t[0].id in live then e + {(t[0].id, id)} else e, live, t[1..], id);
    }
  }

  /** Whether or not it reports, the scan only adds edges from held locks, and never closes a cycle. */
  lemma {:induction false} ScanAddsOrder(e: Edges, live: set<Id>, t: seq<Lock>, id: Id)
    requires Acyclic(e)
    ensures var f := ScanHeld(e, live, t, id).edges;
            && e <= f && Acyclic(f)
            && forall p :: p in f && p !in e ==> p.1 == id && exists h :: h in t && h.id == p.0 && h.id != id
    decreases |t|
  {
    if t != [] {
      if t[0].id !in live {
        ScanAddsOrder(e, live, t[1..], id);
      } else if t[0].id != id && !Reach(e, id, t[0].id) {
        AcyclicAddEdge(e, t[0].id, id);
        ScanAddsOrder(e + {(t[0].id, id)}, live, t[1..], id);
        assert t[0] in t;
      }
    }
  }

  /** The scan in full: it stops at the first live entry that is for the requested lock or that the requested lock leads to in
      the graph as it was. Exactly the live entries before are ordered, and it reports exactly if the entry it stops at is for
      another lock. */
  lemma {:induction false} ScanExact(e: Edges, live: set<Id>, t: seq<Lock>, id: Id) returns (m: nat)
    ensures m <= |t| && (forall j :: 0 <= j < m && t[j].id in live ==> t[j].id != id && !Reach(e, id, t[j].id))
    ensures m < |t| ==> t[m].id in live && (t[m].id == id || Reach(e, id, t[m].id))
    ensures ScanHeld(e, live, t, id).edges == e + (set j | 0 <= j < m && t[j].id in live :: (t[j].id, id))
    ensures ScanHeld(e, live, t, id).reported <==> m < |t| && t[m].id != id
    decreases |t|
  {
    hide Reach;
    if t == [] || (t[0].id in live && (t[0].id == id || Reach(e, id, t[0].id))) {
      m := 0;
    } else {
      var rest, e' := t[1..], if t[0].id in live then e + {(t[0].id, id)} else e;
      m := ScanExact(e', live, rest, id);
      forall v: Id ensures Reach(e', id, v) <==> Reach(e, id, v) {
        InEdgesIrrelevant(e, t[0].id, id, v);
      }
      OneMore(e, live, t, id, m);
      assert forall j :: 1 <= j < |t| ==> t[j] == rest[j - 1];
      m := m + 1;
    }
  }

  lemma OneMore(e: Edges, live: set<Id>, t: seq<Lock>, id: Id, m: nat)
    requires t != [] && m <= |t| - 1
    ensures (if t[0].id in live then e + {(t[0].id, id)} else e) + (set j | 0 <= j < m && t[1..][j].id in live :: (t[1..][j].id, id)) ==
            e + (set j | 0 <= j < m + 1 && t[j].id in live :: (t[j].id, id))
  {
    var a, b := set j | 0 <= j < m && t[1..][j].id in live :: (t[1..][j].id, id), set j | 0 <= j < m + 1 && t[j].id in live :: (t[j].id, id);
    forall p | p in b ensures p in a || (t[0].id in live && p == (t[0].id, id)) {
      var j :| 0 <= j < m + 1 && t[j].id in live && p == (t[j].id, id);
      if j > 0 { assert t[1..][j - 1] == t[j]; }
    }
    forall p | p in a ensures p in b {
      var j :| 0 <= j < m && t[1..][j].id in live && p == (t[1..][j].id, id);
      assert t[j + 1] == t[1..][j];
    }
    if t[0].id in live { assert (t[0].id, id) in b; }
  }

  /** The request of a lock, field by field. */
  lemma BeforeLockExact(s: State, t: Thread, mu: Ptr, id: Id, s': State) returns (m: nat)
    requires BeforeLock(s, t, mu, id, s')
    ensures s'.held == s.held
    ensures |Held(s, t)| >= 20 ==>
              id == 0 && s'.otherError && s'.edges == s.edges && s'.cur == s.cur && s'.issued == s.issued && s'.potentialDeadlock == s.potentialDeadlock
    ensures |Held(s, t)| < 20 ==>
              && s'.otherError == s.otherError
              && (if mu in s.cur then id == s.cur[mu] && s'.cur == s.cur && s'.issued == s.issued
                  else id !in s.issued && id != 0 && s'.cur == s.cur[mu := id] && s'.issued == s.issued + {id})
    ensures |Held(s, t)| < 20 ==> var held, live := Held(s, t), s'.cur.Values;
              && m <= |held|
              && (forall j :: 0 <= j < m && held[j].id in live ==> held[j].id != id && !Reach(s.edges, id, held[j].id))
              && (m < |held| ==> held[m].id in live && (held[m].id == id || Reach(s.edges, id, held[m].id)))
              && s'.edges == s.edges + (set j | 0 <= j < m && held[j].id in live :: (held[j].id, id))
              && (s'.potentialDeadlock <==> s.potentialDeadlock || (m < |held| && held[m].id != id))
  {
    hide Reach, ScanHeld;
    m := 0;
    if |Held(s, t)| < 20 {
      var s1 :| Identified(s, mu, id, s1) &&
                var scan := ScanHeld(s1.edges, s1.cur.Values, Held(s, t), id);
                s' == s1.(edges := scan.edges, potentialDeadlock := s.potentialDeadlock || scan.reported);
      m := ScanExact(s.edges, s1.cur.Values, Held(s, t), id);
    }
  }

  /** The recording of an acquisition, field by field: entries stay where they are. */
  lemma InLockExact(s: State, t: Thread, mu: Ptr, id: Id)
    requires IsHeldTable(Held(s, t))
    ensures var s' := InLock(s, t, mu, id); var held, held' := Held(s, t), Held(s', t);
            && s'.edges == s.edges && s'.cur == s.cur && s'.issued == s.issued
            && s'.potentialDeadlock == s.potentialDeadlock && s'.otherError == s.otherError
            && (forall u :: u != t ==> Held(s', u) == Held(s, u))
            && (forall i :: 0 <= i < |held| && held[i].id != id ==> i < |held'| && held'[i] == held[i])
            && (forall i :: 0 <= i < |held| && held[i].id == id ==> |held'| == |held| && held'[i] == Lock(held[i].mu, held[i].count + 1, id))
            && ((forall e :: e in held ==> e.id != id) ==> held' == if |held| < 20 then held + [Lock(mu, 1, id)] else held)
  {
    AcquireInPlace(Held(s, t), mu, id);
    hide Acquired, IsHeldTable;
  }

  /** The release of a lock, field by field. */
  lemma AfterLockExact(s: State, t: Thread, mu: Ptr, s': State) returns (id: Id)
    requires AfterLock(s, t, mu, s') && IsHeldTable(Held(s, t))
    ensures if mu in s.cur then id == s.cur[mu] && s'.cur == s.cur && s'.issued == s.issued
            else id !in s.issued && id != 0 && s'.cur == s.cur[mu := id] && s'.issued == s.issued + {id}
    ensures s'.edges == s.edges && s'.potentialDeadlock == s.potentialDeadlock && forall u :: u != t ==> Held(s', u) == Held(s, u)
    ensures s'.otherError <==> s.otherError || forall e :: e in Held(s, t) ==> e.id != id
    ensures var held, held' := Held(s, t), Held(s', t);
            && (forall i :: 0 <= i < |held| && held[i].id == id && held[i].count > 1 ==> held' == held[i := Lock(held[i].mu, held[i].count - 1, id)])
            && (forall i :: 0 <= i < |held| && held[i].id == id && held[i].count == 1 ==>
                  |held'| == |held| - 1 && forall k :: 0 <= k < |held'| ==> held'[k] == if k == i then held[|held| - 1] else held[k])
            && ((forall e :: e in held ==> e.id != id) ==> held' == held)
  {
    hide Released, IsHeldTable, Times;
    var i, s1 :| Identified(s, mu, i, s1) &&
                 s' == s1.(held := SetHeld(s.held, t, Released(Held(s, t), i)), otherError := s.otherError || Times(Held(s, t), i) == 0);
    id := i;
    ReleaseInPlace(Held(s, t), id);
    TimesPositive(Held(s, t), id);
    assert Held(s', t) == Released(Held(s, t), id);
  }

  /** A try hands out the id of the lock and changes nothing else. */
  lemma TryLockExact(s: State, mu: Ptr, id: Id, s': State)
    requires BeforeTryLock(s, mu, id, s')
    ensures if mu in s.cur then id == s.cur[mu] && s' == s
            else id !in s.issued && id != 0 && s' == s.(cur := s.cur[mu := id], issued := s.issued + {id})
  {
  }

  /** A deleted lock is gone: it has no id, its former id is nobody's, and no edge touches that id; all else stays. */
  lemma DeleteLockExact(s: State, mu: Ptr)
    requires Named(s.cur, s.issued)
    ensures var s' := DeleteLock(s, mu);
            && mu !in s'.cur && s'.cur == s.cur - {mu} && s'.issued == s.issued && s'.held == s.held
            && s'.potentialDeadlock == s.potentialDeadlock && s'.otherError == s.otherError
            && (mu !in s.cur ==> s'.edges == s.edges)
            && (mu in s.cur ==> s.cur[mu] in s'.issued && s.cur[mu] !in s'.cur.Values)
            && (mu in s.cur ==> forall a, b :: (a, b) in s'.edges <==> (a, b) in s.edges && a != s.cur[mu] && b != s.cur[mu])
  {
    var s' := DeleteLock(s, mu);
    if mu in s.cur {
      forall a, b ensures (a, b) in s'.edges <==> (a, b) in s.edges && a != s.cur[mu] && b != s.cur[mu] {
        assert (a, b).0 == a && (a, b).1 == b;
      }
    }
  }

  /** How ids come and go: a lock is looked up, or deleted, or neither. */
  ghost predicate RegistryStep(s: State, s': State) {
    || (exists mu, id, s1 :: Identified(s, mu, id, s1) && s'.cur == s1.cur && s'.issued == s1.issued)
    || (exists mu :: s'.cur == s.cur - {mu} && s'.issued == s.issued)
    || (s'.cur == s.cur && s'.issued == s.issued)
  }

  /** Whatever the monitor is called for, ids come and go in no other way. */
  lemma CallsAreRegistrySteps(s: State, t: Thread, mu: Ptr, id: Id, s': State)
    ensures BeforeLock(s, t, mu, id, s') || AfterLock(s, t, mu, s') || BeforeTryLock(s, mu, id, s') ==> RegistryStep(s, s')
    ensures RegistryStep(s, InLock(s, t, mu, id)) && RegistryStep(s, DeleteLock(s, mu))
  {
    hide ScanHeld;
    if BeforeLock(s, t, mu, id, s') && |Held(s, t)| < MAX_LOCKS {
      var s1 :| Identified(s, mu, id, s1) && s'.cur == s1.cur && s'.issued == s1.issued;
    } else if AfterLock(s, t, mu, s') {
      var i, s1 :| Identified(s, mu, i, s1) && s'.cur == s1.cur && s'.issued == s1.issued;
    } else if BeforeTryLock(s, mu, id, s') {
      assert Identified(s, mu, id, s');
    }
    assert DeleteLock(s, mu).cur == s.cur - {mu} && DeleteLock(s, mu).issued == s.issued;
  }

  /** An id that is nobody's any more. */
  ghost predicate Spent(s: State, id: Id) {
    id in s.issued && id !in s.cur.Values
  }

  lemma StaysSpent(s: State, s': State, id: Id)
    requires Named(s.cur, s.issued) && RegistryStep(s, s')
    ensures Named(s'.cur, s'.issued) && s.issued <= s'.issued && (Spent(s, id) ==> Spent(s', id))
  {
    if Spent(s, id) {
      forall p | p in s'.cur ensures s'.cur[p] != id {
        assert p in s.cur ==> s.cur[p] in s.cur.Values;
      }
    }
  }

  /** Ids are never reused: over any run of calls, an id whose lock has been deleted never becomes the id of a lock again,
      and at all times different locks have different ids. */
  lemma {:induction false} IdNeverReturns(run: seq<State>, i: nat, j: nat, id: Id)
    requires i <= j < |run| && Named(run[i].cur, run[i].issued) && Spent(run[i], id)
    requires forall k, m :: 0 <= k && m == k + 1 && m < |run| ==> RegistryStep(run[k], run[m])
    ensures Named(run[j].cur, run[j].issued) && Spent(run[j], id)
    decreases j
  {
    if i < j {
      IdNeverReturns(run, i, j - 1, id);
      var k := j - 1;
      assert RegistryStep(run[k], run[j]);
      StaysSpent(run[k], run[j], id);
    }
  }
}
