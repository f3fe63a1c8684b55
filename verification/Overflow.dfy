/** A run that shows why the detector's guarantee needs tables that do not overflow. */
module Overflow {
  import opened Digraphs
  import opened GraphIds
  import opened HeldLocks
  import opened LockOrder
  import opened Protocol
  import opened Scenarios

  /** Nothing unusual has happened but that the tables of these threads have dropped a lock. */
  ghost predicate OnlyDropped(past: Past, dropped: set<Thread>) {
    past.refused == {} && past.dropped == dropped && !past.strayed && !past.overdue && !past.inverted
  }

  /** Thread 1 owns the locks 1 to `known` and has the first k of them in its table; nothing else has happened. */
  ghost predicate Loaded(w: World, k: nat, known: nat) {
    && Held(w.mon, 1) == Table(k) && Held(w.mon, 2) == [] && At(w, 1) == Idle && At(w, 2) == Idle
    && w.mon.edges == {} && !w.mon.potentialDeadlock && !w.mon.otherError && OnlyDropped(w.past, if k < known then {1} else {})
    && (forall p :: 1 <= p <= known ==> p in w.owner && w.owner[p] == Owner(1, 1) && p in w.mon.cur && w.mon.cur[p] == p && p in w.mon.issued)
    && (forall p :: p > known ==> p !in w.owner && p !in w.mon.cur && p !in w.mon.issued)
  }

  lemma NextLoaded(w: World, k: nat)
    requires Loaded(w, k, k) && k <= MAX_LOCKS
    ensures var w' := Noted(InsideOf(Tried(w, 1, k + 1), 1, k + 1), 1, k + 1);
            Loaded(w', if k < MAX_LOCKS then k + 1 else k, k + 1)
  {
    hide Acquired, Times, Table;
    AcquireNext(k);
  }

  /** Thread 1 tries the next lock, gets it, and has it recorded if there is room. */
  lemma TryNext(run: seq<World>, steps: seq<Step>, k: nat) returns (run': seq<World>, steps': seq<Step>)
    requires IsRun(run, steps) && Loaded(Current(run), k, k) && k <= MAX_LOCKS
    ensures IsRun(run', steps') && Loaded(Current(run'), if k < MAX_LOCKS then k + 1 else k, k + 1)
  {
    var w, mu := Current(run), k + 1;
    hide IsRun, Takes;
    var w1 := Tried(w, 1, mu);
    TryRequestTaken(w, 1, mu);
    Extend(run, steps, TryRequest(1, mu), w1);
    var w2 := InsideOf(w1, 1, mu);
    EnterTaken(w1, 1, mu);
    Extend(run + [w1], steps + [TryRequest(1, mu)], TryEnter(1), w2);
    var w3 := Noted(w2, 1, mu);
    RecordTaken(w2, 1, mu);
    Extend(run + [w1] + [w2], steps + [TryRequest(1, mu)] + [TryEnter(1)], Record(1), w3);
    run', steps' := run + [w1] + [w2] + [w3], steps + [TryRequest(1, mu)] + [TryEnter(1)] + [Record(1)];
    NextLoaded(w, k);
  }

  lemma {:induction false} FillUp(k: nat) returns (run: seq<World>, steps: seq<Step>)
    requires k <= MAX_LOCKS
    ensures IsRun(run, steps) && Loaded(Current(run), k, k)
  {
    if k == 0 {
      run, steps := [INIT], [];
    } else {
      run, steps := FillUp(k - 1);
      run, steps := TryNext(run, steps, k - 1);
    }
  }

  /** Thread 1 has the locks 1 to 19 in its table and owns lock 21 besides; lock 22 is not yet known. */
  ghost predicate Ready(w: World) {
    && Held(w.mon, 1) == Table(19) && Held(w.mon, 2) == [] && At(w, 1) == Idle && At(w, 2) == Idle
    && w.mon.edges == {} && !w.mon.potentialDeadlock && !w.mon.otherError && OnlyDropped(w.past, {1})
    && 21 in w.owner && w.owner[21] == Owner(1, 1) && 22 !in w.owner
    && 21 in w.mon.cur && w.mon.cur[21] == 21 && 21 in w.mon.issued && 22 !in w.mon.cur && 22 !in w.mon.issued
  }

  lemma ReadyAfter(w: World)
    requires Loaded(w, 20, 21)
    ensures At(w, 1) == Idle && At(Forgotten(w, 1, 20), 1) == Leaving(20, true) && 20 in w.mon.cur && w.mon.cur[20] == 20
    ensures 20 in Forgotten(w, 1, 20).owner && Ready(Left(Forgotten(w, 1, 20), 1, 20, true))
  {
    ReleaseLast(20);
  }

  /** Moreover thread 2 holds lock 22. */
  ghost predicate Armed(w: World) {
    && Held(w.mon, 1) == Table(19) && Held(w.mon, 2) == [Lock(22, 1, 22)] && At(w, 1) == Idle && At(w, 2) == Idle
    && w.mon.edges == {} && !w.mon.potentialDeadlock && !w.mon.otherError && OnlyDropped(w.past, {1})
    && 21 in w.owner && w.owner[21] == Owner(1, 1) && 22 in w.owner && w.owner[22] == Owner(2, 1)
    && 21 in w.mon.cur && w.mon.cur[21] == 21 && 21 in w.mon.issued && 22 in w.mon.cur && w.mon.cur[22] == 22 && 22 in w.mon.issued
  }

  lemma ArmedAfter(w: World)
    requires Ready(w)
    ensures var w1 := Asked(w, 2, 22); var w2 := InsideOf(w1, 2, 22);
            Plain(w.mon, 22) && At(w, 2) == Idle && |Held(w.mon, 2)| < MAX_LOCKS && At(w1, 2) == Waiting(22, 22) && 22 !in w1.owner && At(w2, 2) == Entered(22, 22) && Armed(Noted(w2, 2, 22))
  {
  }

  /** Thread 1 waits for lock 22, thread 2 for lock 21. */
  lemma TrapShut(w: World)
    requires Armed(w)
    ensures var w1 := Asked(w, 1, 22); var w2 := Asked(w1, 2, 21);
            && At(w1, 2) == Idle && |Held(w1.mon, 2)| < MAX_LOCKS && Plain(w1.mon, 21)
            && !w2.mon.potentialDeadlock && !w2.mon.otherError && OnlyDropped(w2.past, {1}) && IsCircularWait(w2, [1, 2])
  {
    hide ScanHeld;
    var w1 := Asked(w, 1, 22);
    Unreported({}, w1.mon.cur.Values, Table(19), 22);
    assert forall h :: h in Table(19) ==> h.id <= 19;
    var w2 := Asked(w1, 2, 21);
    Unreported(w1.mon.edges, w2.mon.cur.Values, [Lock(22, 1, 22)], 21);
    assert BlockedBy(w2, 1, 2) && BlockedBy(w2, 2, 1);
  }

  /** There is a run that ends in a circular wait although nothing was ever reported: a table that was full has dropped a lock
      entered by a try. This is what the guarantee of the detector has to exclude. */
  lemma OverflowHidesDeadlock() returns (run: seq<World>, steps: seq<Step>)
    ensures IsRun(run, steps)
    ensures !Current(run).mon.potentialDeadlock && !Current(run).mon.otherError && IsCircularWait(Current(run), [1, 2])
    ensures OnlyDropped(Current(run).past, {1})
  {
    run, steps := FillUp(MAX_LOCKS);
    run, steps := TryNext(run, steps, MAX_LOCKS);
    hide IsRun, Takes, IsCircularWait, Loaded, Ready, Armed, OnlyDropped, Plain, Asked, InsideOf, Noted, Forgotten, Left;
    run, steps := ToReady(run, steps);
    run, steps := ToArmed(run, steps);
    var w := Current(run);
    ArmedFacts(w);
    RequestTaken(w, 1, 22);
    TrapShut(w);
    var w1 := Asked(w, 1, 22);
    run, steps := Grow(run, steps, Request(1, 22), w1);
    RequestTaken(w1, 2, 21);
    run, steps := Grow(run, steps, Request(2, 21), Asked(w1, 2, 21));
  }

  lemma ArmedFacts(w: World)
    requires Armed(w)
    ensures At(w, 1) == Idle && |Held(w.mon, 1)| < MAX_LOCKS && Plain(w.mon, 22)
  {
  }

  lemma ToReady(run: seq<World>, steps: seq<Step>) returns (run': seq<World>, steps': seq<Step>)
    requires run != [] && IsRun(run, steps) && Loaded(Current(run), 20, 21)
    ensures run' != [] && IsRun(run', steps') && Ready(Current(run'))
  {
    var w := Current(run);
    ReadyAfter(w);
    hide IsRun, Takes, Loaded, Ready, Forgotten, Left, Plain;
    UnrecordTaken(w, 1, 20);
    run', steps' := Grow(run, steps, Unrecord(1, 20), Forgotten(w, 1, 20));
    LeaveTaken(Forgotten(w, 1, 20), 1, 20, true);
    run', steps' := Grow(run', steps', Leave(1), Left(Forgotten(w, 1, 20), 1, 20, true));
  }

  lemma ToArmed(run: seq<World>, steps: seq<Step>) returns (run': seq<World>, steps': seq<Step>)
    requires run != [] && IsRun(run, steps) && Ready(Current(run))
    ensures run' != [] && IsRun(run', steps') && Armed(Current(run'))
  {
    var w := Current(run);
    ArmedAfter(w);
    RequestTaken(w, 2, 22);
    hide IsRun, Takes, Armed, Ready, Asked, InsideOf, Noted, Plain;
    var w1 := Asked(w, 2, 22);
    run', steps' := Grow(run, steps, Request(2, 22), w1);
    EnterTaken(w1, 2, 22);
    var w2 := InsideOf(w1, 2, 22);
    run', steps' := Grow(run', steps', Enter(2), w2);
    RecordTaken(w2, 2, 22);
    run', steps' := Grow(run', steps', Record(2), Noted(w2, 2, 22));
  }
}
