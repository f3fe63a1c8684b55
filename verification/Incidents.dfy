/** Runs that show what the monitor reports besides circular orders of locks: releases of locks that are not owned, a hold that
    the watchdog finds too long, and one report of a potential deadlock that is spurious. */
module Incidents {
  import opened Digraphs
  import opened GraphIds
  import opened HeldLocks
  import opened LockOrder
  import opened Protocol
  import opened Scenarios

  /** All pairs of the numbers 1 to k in ascending order. */
  ghost function Pairs(k: nat): Edges {
    set a: int, b: int | 1 <= a <= k && 1 <= b <= k && a < b :: (a, b)
  }

  lemma PairsAcyclic(k: nat)
    ensures Acyclic(Pairs(k))
  {
    IncreasingAcyclic(Pairs(k), seq(k + 1, i => i));
  }

  lemma PairsBelow(k: nat)
    ensures forall p :: p in Pairs(k) ==> 1 <= p.0 < p.1 <= k
  {
  }

  /** Thread 1 has entered the locks 1 to k in this order, and nothing else has happened. */
  ghost predicate Climbed(w: World, k: nat) {
    && Held(w.mon, 1) == Table(k) && Held(w.mon, 2) == [] && At(w, 1) == Idle && At(w, 2) == Idle
    && w.mon.edges == Pairs(k) && !w.mon.potentialDeadlock && !w.mon.otherError
    && w.past.refused == {} && w.past.dropped == {} && !w.past.strayed && !w.past.overdue && !w.past.inverted && w.past.orders == Pairs(k)
    && (forall p :: 1 <= p <= k ==> p in w.owner && w.owner[p] == Owner(1, 1) && p in w.mon.cur && w.mon.cur[p] == p && p in w.mon.issued)
    && (forall p :: p > k ==> p !in w.owner && p !in w.mon.cur && p !in w.mon.issued)
  }

  lemma PairsNext(k: nat, live: set<Id>)
    requires forall i :: 1 <= i <= k ==> i in live
    ensures Pairs(k) + (set h | h in Table(k) && h.id in live :: (h.id, k + 1)) == Pairs(k + 1)
    ensures Pairs(k) + Requested(Table(k), k + 1) == Pairs(k + 1)
  {
    forall a | 1 <= a <= k ensures Lock(a, 1, a) in Table(k) {
      assert Table(k)[a - 1] == Lock(a, 1, a);
    }
    var s, r := set h | h in Table(k) && h.id in live :: (h.id, k + 1), Requested(Table(k), k + 1);
    forall p: (int, int) ensures p in Pairs(k + 1) <==> p in Pairs(k) + s {
      if p in Pairs(k + 1) && p.1 == k + 1 { assert Lock(p.0, 1, p.0) in Table(k); }
    }
    forall p: (int, int) ensures p in Pairs(k + 1) <==> p in Pairs(k) + r {
      if p in Pairs(k + 1) && p.1 == k + 1 { assert Lock(p.0, 1, p.0) in Table(k); }
    }
  }

  lemma NextAsked(w: World, k: nat)
    requires Climbed(w, k) && k < MAX_LOCKS
    ensures var w' := Asked(w, 1, k + 1); w'.mon.edges == Pairs(k + 1) == w'.past.orders && !w'.mon.potentialDeadlock && !w'.past.inverted
  {
    hide ScanHeld, Requested, Pairs;
    var live := Looked(w.mon, k + 1).cur.Values;
    forall i | 1 <= i <= k ensures i in live {
      assert Looked(w.mon, k + 1).cur[i] == i;
    }
    PairsBelow(k);
    assert forall h :: h in Table(k) ==> h.id <= k;
    Unreported(Pairs(k), live, Table(k), k + 1);
    PairsNext(k, live);
  }

  lemma NextEnters(w: World, k: nat)
    requires Climbed(w, k) && k < MAX_LOCKS
    ensures var w1 := Asked(w, 1, k + 1); var w2 := InsideOf(w1, 1, k + 1);
            && Plain(w.mon, k + 1) && At(w, 1) == Idle && |Held(w.mon, 1)| < MAX_LOCKS
            && At(w1, 1) == Waiting(k + 1, k + 1) && Enterable(w1, 1, k + 1) && At(w2, 1) == Entered(k + 1, k + 1)
  {
    hide ScanHeld, Requested, Pairs, Table, Inverts, Depth;
  }

  lemma NextClimbed(w: World, k: nat)
    requires Climbed(w, k) && k < MAX_LOCKS
    ensures Climbed(Noted(InsideOf(Asked(w, 1, k + 1), 1, k + 1), 1, k + 1), k + 1)
  {
    NextAsked(w, k);
    AcquireNext(k);
    hide ScanHeld, Requested, Pairs, Acquired, Times, Table, Inverts, Depth;
  }

  function ClimbSteps(k: nat): seq<Step> {
    if k == 0 then [] else ClimbSteps(k - 1) + [Request(1, k), Enter(1), Record(1)]
  }

  lemma ClimbNext(run: seq<World>, steps: seq<Step>, k: nat) returns (run': seq<World>, steps': seq<Step>)
    requires run != [] && IsRun(run, steps) && Climbed(Current(run), k) && k < MAX_LOCKS
    ensures run' != [] && IsRun(run', steps') && Climbed(Current(run'), k + 1)
    ensures steps' == steps + [Request(1, k + 1), Enter(1), Record(1)]
  {
    hide IsRun, Takes, Climbed, Asked, InsideOf, Noted, Plain, Enterable, At;
    var w := Current(run);
    NextEnters(w, k);
    NextClimbed(w, k);
    var w1 := Asked(w, 1, k + 1);
    RequestTaken(w, 1, k + 1);
    run', steps' := Grow(run, steps, Request(1, k + 1), w1);
    var w2 := InsideOf(w1, 1, k + 1);
    EnterTaken(w1, 1, k + 1);
    run', steps' := Grow(run', steps', Enter(1), w2);
    RecordTaken(w2, 1, k + 1);
    run', steps' := Grow(run', steps', Record(1), Noted(w2, 1, k + 1));
  }

  /** One thread enters the locks 1 to k one after the other. */
  lemma {:induction false} Climb(k: nat) returns (run: seq<World>, steps: seq<Step>)
    requires k <= MAX_LOCKS
    ensures run != [] && IsRun(run, steps) && Climbed(Current(run), k) && steps == ClimbSteps(k)
  {
    if k == 0 {
      run, steps := [INIT], [];
    } else {
      hide IsRun, Climbed;
      run, steps := Climb(k - 1);
      run, steps := ClimbNext(run, steps, k - 1);
    }
  }

  /** The other-error flag has just been set, while nothing else was reported and no table has overflowed. */
  ghost predicate NewError(before: World, w: World) {
    !before.mon.otherError && w.mon.otherError && !w.mon.potentialDeadlock && forall t :: !Overflowed(w, t)
  }

  /** Thread 1 has entered lock 1 and left it again. */
  lemma EnterLeave() returns (run: seq<World>, steps: seq<Step>)
    ensures run != [] && IsRun(run, steps) && steps == ClimbSteps(1) + [Unrecord(1, 1), Leave(1)]
    ensures var w := Current(run); var w' := Forgotten(w, 1, 1);
            At(w, 1) == Idle && 1 in w.mon.cur && w.mon.cur[1] == 1 && NewError(w, w') && w'.past.strayed && 1 !in w'.owner
  {
    run, steps := Climb(1);
    var w := Current(run);
    ReleaseLast(1);
    var w1 := Forgotten(w, 1, 1);
    UnrecordTaken(w, 1, 1);
    LeaveTaken(w1, 1, 1, true);
    hide IsRun, Takes;
    run, steps := Grow(run, steps, Unrecord(1, 1), w1);
    run, steps := Grow(run, steps, Leave(1), Left(w1, 1, 1, true));
  }

  /** A thread that leaves a lock twice is reported. */
  lemma DoubleLeave() returns (run: seq<World>, steps: seq<Step>)
    ensures IsRun(run, steps) && steps == ClimbSteps(1) + [Unrecord(1, 1), Leave(1), Unrecord(1, 1)]
    ensures |run| > 1 && NewError(run[|run| - 2], Current(run)) && Current(run).past.strayed && 1 !in Current(run).owner
  {
    hide IsRun, Takes, NewError, Forgotten;
    run, steps := EnterLeave();
    var w := Current(run);
    UnrecordTaken(w, 1, 1);
    run, steps := Grow(run, steps, Unrecord(1, 1), Forgotten(w, 1, 1));
  }

  /** A thread that leaves a lock another thread has entered is reported; the lock still belongs to that other thread. */
  lemma ForeignLeave() returns (run: seq<World>, steps: seq<Step>)
    ensures IsRun(run, steps) && steps == ClimbSteps(1) + [Unrecord(2, 1), Leave(2)]
    ensures |run| > 2 && NewError(run[|run| - 3], Current(run)) && Current(run).past.strayed
    ensures 1 in Current(run).owner && Current(run).owner[1] == Owner(1, 1)
  {
    run, steps := Climb(1);
    var w := Current(run);
    var w1 := Forgotten(w, 2, 1);
    UnrecordTaken(w, 2, 1);
    LeaveTaken(w1, 2, 1, false);
    hide IsRun, Takes;
    run, steps := Grow(run, steps, Unrecord(2, 1), w1);
    run, steps := Grow(run, steps, Leave(2), Left(w1, 2, 1, false));
  }

  /** The watchdog's report of a thread that holds a lock is an error, too. */
  lemma LongHold() returns (run: seq<World>, steps: seq<Step>)
    ensures IsRun(run, steps) && steps == ClimbSteps(1) + [Overdue(1)]
    ensures |run| > 1 && NewError(run[|run| - 2], Current(run)) && Current(run).past.overdue && !Current(run).past.strayed
    ensures Depth(Current(run), 1, 1) == 1
  {
    run, steps := Climb(1);
    var w := Current(run);
    run, steps := Grow(run, steps, Overdue(1), w.(mon := WatchdogError(w.mon), past := w.past.(overdue := true)));
  }

  /** Leaving the first of three locks moves the third to the front of the table. */
  lemma ReleaseFirst()
    ensures Released(Table(3), 1) == [Lock(3, 1, 3), Lock(2, 1, 2)] && Times(Table(3), 1) == 1
  {
    TableLookup(3, 1);
  }

  /** Asked again for the second lock, the monitor meets the third first, which the second leads to. */
  lemma ScanReports(e: Edges, live: set<Id>)
    requires (2, 3) in e && 3 in live
    ensures ScanHeld(e, live, [Lock(3, 1, 3), Lock(2, 1, 2)], 2) == Scan(e, true)
  {
    ReachEdge(e, 2, 3);
  }

  /** A spurious report: a single thread enters three locks, leaves the first and enters the second, which it owns, once more.
      This is reported as a potential deadlock although all locks have been taken in ascending order. */
  lemma SpuriousReport() returns (run: seq<World>, steps: seq<Step>)
    ensures IsRun(run, steps) && steps == ClimbSteps(3) + [Unrecord(1, 1), Leave(1), Request(1, 2)]
    ensures |run| > 1 && !run[|run| - 2].mon.potentialDeadlock && Current(run).mon.potentialDeadlock
    ensures Current(run).past.inverted && Acyclic(Current(run).past.orders)
  {
    run, steps := Climb(3);
    var w := Current(run);
    var w1 := Forgotten(w, 1, 1);
    var w2 := Left(w1, 1, 1, true);
    var w3 := Asked(w2, 1, 2);
    ReachedAgain(w);
    PairsAcyclic(3);
    UnrecordTaken(w, 1, 1);
    LeaveTaken(w1, 1, 1, true);
    RequestTaken(w2, 1, 2);
    hide IsRun, Takes, Climbed, Asked, Forgotten, Left, Acyclic, Pairs;
    run, steps := Grow(run, steps, Unrecord(1, 1), w1);
    run, steps := Grow(run, steps, Leave(1), w2);
    run, steps := Grow(run, steps, Request(1, 2), w3);
  }

  lemma ReachedAgain(w: World)
    requires Climbed(w, 3)
    ensures var w1 := Forgotten(w, 1, 1);
            && At(w, 1) == Idle && 1 in w.mon.cur && w.mon.cur[1] == 1 && At(w1, 1) == Leaving(1, true) && 1 in w1.owner
            && var w2 := Left(w1, 1, 1, true); var w3 := Asked(w2, 1, 2);
               && At(w2, 1) == Idle && Plain(w2.mon, 2) && |Held(w2.mon, 1)| < MAX_LOCKS && !w2.mon.potentialDeadlock
               && w3.mon.potentialDeadlock && w3.past.inverted && w3.past.orders == Pairs(3)
  {
    ReleaseFirst();
    hide ScanHeld, Requested, Pairs, Released, Times, Table;
    var w2 := Left(Forgotten(w, 1, 1), 1, 1, true);
    var s := Looked(w2.mon, 2);
    assert s.cur[3] == 3;
    assert (2, 3) in s.edges by { PairsHas(3, 2, 3); }
    ScanReports(s.edges, s.cur.Values);
  }

  lemma PairsHas(k: nat, a: int, b: int)
    requires 1 <= a < b <= k
    ensures (a, b) in Pairs(k)
  {
  }
}
