/** The per-thread table of the locks a thread holds. */
module HeldLocks {
  import opened GraphIds
  import opened GraphNodes

  const MAX_LOCKS := 20

  /** One table entry: a lock, how often it is held, and the graph id it was acquired under. */
  datatype Lock = Lock(mu: Ptr, count: int, id: Id)

  const CLEARED := Lock(0, 0, 0)

  /** The index of the entry for `id`, or the length of the table. */
  function IndexOf(t: seq<Lock>, id: Id): (i: nat)
    ensures i <= |t| && (i < |t| ==> t[i].id == id) && forall j :: 0 <= j < i ==> t[j].id != id
  {
    if t == [] then 0 else if t[0].id == id then 0 else 1 + IndexOf(t[1..], id)
  }

  /** The table after one more acquisition; a full table drops a lock it does not have yet. */
  function Acquired(t: seq<Lock>, mu: Ptr, id: Id): seq<Lock> {
    var i := IndexOf(t, id);
    if i < |t| then t[i := t[i].(count := t[i].count + 1)]
    else if |t| == MAX_LOCKS then t
    else t + [Lock(mu, 1, id)]
  }

  /** The table after one release: the last entry takes the place of one that is no longer held. */
  function Released(t: seq<Lock>, id: Id): seq<Lock> {
    var i := IndexOf(t, id);
    if i == |t| then t
    else if t[i].count == 1 then t[i := t[|t| - 1]][..|t| - 1]
    else t[i := t[i].(count := t[i].count - 1)]
  }

  /** Ids are distinct and counts positive. */
  ghost predicate IsHeldTable(t: seq<Lock>) {
    && |t| <= MAX_LOCKS
    && (forall i :: 0 <= i < |t| ==> t[i].count > 0 && t[i].id != 0)
    && (forall i, j :: 0 <= i < j < |t| ==> t[i].id != t[j].id)
  }

  /** How often the table says that the lock with this id is held. */
  ghost function Times(t: seq<Lock>, id: Id): int {
    var i := IndexOf(t, id);
    if i < |t| then t[i].count else 0
  }

  lemma TimesAt(t: seq<Lock>, i: nat)
    requires IsHeldTable(t) && i < |t|
    ensures IndexOf(t, t[i].id) == i && Times(t, t[i].id) == t[i].count
  {
  }

  lemma TimesPositive(t: seq<Lock>, id: Id)
    requires IsHeldTable(t)
    ensures Times(t, id) >= 0 && (Times(t, id) > 0 <==> exists h :: h in t && h.id == id)
  {
    if h :| h in t && h.id == id {
      var i :| 0 <= i < |t| && t[i] == h;
      TimesAt(t, i);
    }
    var j := IndexOf(t, id);
    if j < |t| { assert t[j] in t; }
  }

  /** Recording an acquisition counts that lock once more and no other, unless the table is full. */
  lemma AcquireCounts(t: seq<Lock>, mu: Ptr, id: Id)
    requires IsHeldTable(t) && id != 0
    ensures IsHeldTable(Acquired(t, mu, id))
    ensures var dropped := |t| == MAX_LOCKS && Times(t, id) == 0;
            forall k :: Times(Acquired(t, mu, id), k) == Times(t, k) + (if k == id && !dropped then 1 else 0)
  {
    var i, u := IndexOf(t, id), Acquired(t, mu, id);
    if i < |t| { TimesAt(t, i); }
    forall k ensures Times(u, k) == Times(t, k) + (if k == id && !(|t| == MAX_LOCKS && Times(t, id) == 0) then 1 else 0) {
      var j := IndexOf(t, k);
      if j < |u| && u[j].id == k { TimesAt(u, j); }
      if k == id && i == |t| && |u| > |t| { TimesAt(u, |t|); }
    }
  }

  /** Recording a release counts that lock once less and no other; releasing a lock that is not held changes nothing. */
  lemma ReleaseCounts(t: seq<Lock>, id: Id)
    requires IsHeldTable(t)
    ensures IsHeldTable(Released(t, id))
    ensures forall k :: Times(Released(t, id), k) == Times(t, k) - (if k == id && Times(t, id) > 0 then 1 else 0)
  {
    hide Times, Released, IsHeldTable;
    ReleaseIsTable(t, id);
    forall k ensures Times(Released(t, id), k) == Times(t, k) - (if k == id && Times(t, id) > 0 then 1 else 0) {
      ReleaseTimes(t, id, k);
    }
  }

  lemma ReleaseIsTable(t: seq<Lock>, id: Id)
    requires IsHeldTable(t)
    ensures IsHeldTable(Released(t, id))
  {
  }

  lemma ReleaseTimes(t: seq<Lock>, id: Id, k: Id)
    requires IsHeldTable(t)
    ensures Times(Released(t, id), k) == Times(t, k) - (if k == id && Times(t, id) > 0 then 1 else 0)
  {
    var i, j, u := IndexOf(t, id), IndexOf(t, k), Released(t, id);
    ReleaseIsTable(t, id);
    if i < |t| {
      var j' := if j == |t| - 1 && t[i].count == 1 then i else j;
      if j' < |u| && u[j'].id == k { TimesAt(u, j'); }
      if j < |t| { TimesAt(t, j); }
    }
  }

  /** An acquisition leaves every entry in its place; a lock that has an entry is counted there, and any other one is put behind
      the last entry unless there are twenty. */
  lemma AcquireInPlace(t: seq<Lock>, mu: Ptr, id: Id)
    requires IsHeldTable(t)
    ensures var u := Acquired(t, mu, id);
            && (forall i :: 0 <= i < |t| && t[i].id != id ==> i < |u| && u[i] == t[i])
            && (forall i :: 0 <= i < |t| && t[i].id == id ==> |u| == |t| && u[i] == Lock(t[i].mu, t[i].count + 1, id))
            && ((forall e :: e in t ==> e.id != id) ==> u == if |t| < 20 then t + [Lock(mu, 1, id)] else t)
  {
    var i := IndexOf(t, id);
    if i < |t| { assert t[i] in t; }
  }

  /** A release of a lock held more than once leaves every entry in its place; at the last release the last entry takes the
      place of the one that goes. */
  lemma ReleaseInPlace(t: seq<Lock>, id: Id)
    requires IsHeldTable(t)
    ensures var u := Released(t, id);
            && (forall i :: 0 <= i < |t| && t[i].id == id && t[i].count > 1 ==> u == t[i := Lock(t[i].mu, t[i].count - 1, id)])
            && (forall i :: 0 <= i < |t| && t[i].id == id && t[i].count == 1 ==>
                  |u| == |t| - 1 && forall k :: 0 <= k < |u| ==> u[k] == if k == i then t[|t| - 1] else t[k])
            && ((forall e :: e in t ==> e.id != id) ==> u == t)
  {
    var i := IndexOf(t, id);
    if i < |t| { assert t[i] in t; }
  }

  /** Entry `k` stands for the same lock as entry `j`; only the count may differ. */
  ghost predicate SameLock(a: Lock, b: Lock) {
    a.mu == b.mu && a.id == b.id
  }

  /** A release loses no other entry and invents none. */
  lemma ReleaseKeeps(t: seq<Lock>, id: Id)
    requires IsHeldTable(t)
    ensures forall e :: e in Released(t, id) ==> exists d :: d in t && SameLock(d, e)
    ensures forall e :: e in t && e.id != id ==> e in Released(t, id)
  {
    var i, u := IndexOf(t, id), Released(t, id);
    forall e | e in u ensures exists d :: d in t && SameLock(d, e) {
      var k :| 0 <= k < |u| && u[k] == e;
      var d := if i < |t| && t[i].count == 1 && k == i then t[|t| - 1] else t[k];
      assert d in t && SameLock(d, e);
    }
    forall e | e in t && e.id != id ensures e in u {
      var k :| 0 <= k < |t| && t[k] == e;
      if i < |t| && t[i].count == 1 && k == |t| - 1 { assert u[i] == e; } else { assert u[k] == e; }
    }
  }

  /** An acquisition keeps all entries and adds at most the one it is for. */
  lemma AcquireKeeps(t: seq<Lock>, mu: Ptr, id: Id)
    ensures forall e :: e in Acquired(t, mu, id) ==> e == Lock(mu, 1, id) || exists d :: d in t && SameLock(d, e)
  {
    var u := Acquired(t, mu, id);
    forall e | e in u ensures e == Lock(mu, 1, id) || exists d :: d in t && SameLock(d, e) {
      var k :| 0 <= k < |u| && u[k] == e;
      if k < |t| { assert t[k] in t && SameLock(t[k], e); }
    }
  }

  /** One recorded event. */
  datatype Event = In(mu: Ptr, id: Id) | Out(id: Id)

  function Record(t: seq<Lock>, v: Event): seq<Lock> {
    match v
    case In(mu, id) => Acquired(t, mu, id)
    case Out(id) => Released(t, id)
  }

  function Run(t: seq<Lock>, vs: seq<Event>): seq<Lock>
    decreases |vs|
  {
    if vs == [] then t else Run(Record(t, vs[0]), vs[1..])
  }

  /** Acquisitions find room and releases concern held locks. */
  ghost predicate Sane(t: seq<Lock>, v: Event) {
    match v
    case In(mu, id) => id != 0 && (|t| < MAX_LOCKS || Times(t, id) > 0)
    case Out(id) => Times(t, id) > 0
  }

  ghost predicate AllSane(t: seq<Lock>, vs: seq<Event>)
    decreases |vs|
  {
    vs == [] || (Sane(t, vs[0]) && AllSane(Record(t, vs[0]), vs[1..]))
  }

  /** Acquisitions minus releases of one lock. */
  ghost function Balance(vs: seq<Event>, id: Id): int {
    if vs == [] then 0
    else Balance(vs[1..], id) + (if vs[0].id != id then 0 else if vs[0].In? then 1 else -1)
  }

  /** Over any run the table counts, for every lock, the acquisitions minus the releases. */
  lemma {:induction false} RunCounts(t: seq<Lock>, vs: seq<Event>)
    requires IsHeldTable(t) && AllSane(t, vs)
    ensures IsHeldTable(Run(t, vs))
    ensures forall k :: Times(Run(t, vs), k) == Times(t, k) + Balance(vs, k)
    decreases |vs|
  {
    if vs != [] {
      match vs[0] {
        case In(mu, id) => AcquireCounts(t, mu, id);
        case Out(id) => ReleaseCounts(t, id);
      }
      RunCounts(Record(t, vs[0]), vs[1..]);
    }
  }

  /** The outcome of recording a release. */
  datatype Release = Done | DeletedMeanwhile | NotHeld

  /** The locks held by one thread. */
  class SynchLocksHeld {
    var n: nat
    const locks: array<Lock>
    /** When the thread acquired or requested the first of them; 0 when it holds none. */
    var startTime: nat

    ghost predicate Valid()
      reads this, locks
    {
      && locks.Length == MAX_LOCKS && n <= MAX_LOCKS && IsHeldTable(locks[..n])
      && forall i :: n <= i < MAX_LOCKS ==> locks[i] == CLEARED
    }

    ghost function Contents(): (t: seq<Lock>)
      reads this, locks
      requires n <= locks.Length
    {
      locks[..n]
    }

    constructor ()
      ensures Valid() && Contents() == [] && startTime == 0 && fresh(locks)
    {
      locks := new Lock[MAX_LOCKS](_ => CLEARED);
      n, startTime := 0, 0;
    }

    /** The slot of the entry for `id`, or n. */
    method Find(id: Id) returns (i: nat)
      requires Valid()
      ensures i == IndexOf(Contents(), id)
    {
      i := 0;
      while i != n && locks[i].id != id
        invariant 0 <= i <= n && forall j :: 0 <= j < i ==> locks[j].id != id
        decreases n - i
      {
        i := i + 1;
      }
      FirstIndex(Contents(), id, i);
    }

    /** Records an acquisition. */
    method UpdateInLock(mu: Ptr, id: Id)
      requires Valid() && id != 0
      modifies this`n, locks
      ensures Valid() && Contents() == Acquired(old(Contents()), mu, id)
      ensures var t, u := old(Contents()), Contents();
              && (forall i :: 0 <= i < |t| && t[i].id != id ==> i < |u| && u[i] == t[i])
              && (forall i :: 0 <= i < |t| && t[i].id == id ==> |u| == |t| && u[i] == Lock(t[i].mu, t[i].count + 1, id))
              && ((forall e :: e in t ==> e.id != id) ==> u == if |t| < 20 then t + [Lock(mu, 1, id)] else t)
    {
      hide IsHeldTable, Acquired, IndexOf;
      ghost var t := Contents();
      AcquireCounts(t, mu, id);
      AcquireInPlace(t, mu, id);
      AcquireAt(t, mu, id);
      var i := Find(id);
      if i == n {
        if n == locks.Length {
          return;
        }
        locks[i] := Lock(mu, 1, id);
        n := n + 1;
      } else {
        locks[i] := locks[i].(count := locks[i].count + 1);
      }
      assert Contents() == Acquired(t, mu, id);
    }

    /** The slot of the first entry for the lock at `mu`, or n. */
    method FindLock(mu: Ptr) returns (i: nat)
      requires Valid()
      ensures i <= n && (i < n ==> Contents()[i].mu == mu)
      ensures i == n ==> forall e :: e in Contents() ==> e.mu != mu
    {
      i := 0;
      while i != n && locks[i].mu != mu
        invariant 0 <= i <= n && forall j :: 0 <= j < i ==> locks[j].mu != mu
        decreases n - i
      {
        i := i + 1;
      }
    }

    /** Records a release; when the thread holds nothing under this id it says why and changes nothing. */
    method UpdateAfterLock(mu: Ptr, id: Id) returns (r: Release)
      requires Valid()
      modifies this`n, locks
      ensures Valid() && Contents() == Released(old(Contents()), id)
      ensures r == Done <==> Times(old(Contents()), id) > 0
      ensures r == DeletedMeanwhile <==> r != Done && exists e :: e in old(Contents()) && e.mu == mu
      ensures var t, u := old(Contents()), Contents();
              && (forall i :: 0 <= i < |t| && t[i].id == id && t[i].count > 1 ==> u == t[i := Lock(t[i].mu, t[i].count - 1, id)])
              && (forall i :: 0 <= i < |t| && t[i].id == id && t[i].count == 1 ==>
                    |u| == |t| - 1 && forall k :: 0 <= k < |u| ==> u[k] == if k == i then t[|t| - 1] else t[k])
              && ((forall e :: e in t ==> e.id != id) ==> u == t)
    {
      hide IsHeldTable, Times, IndexOf, Released;
      ghost var t := Contents();
      ReleaseCounts(t, id);
      ReleaseInPlace(t, id);
      ReleaseAt(t, id);
      TimesIndex(t, id);
      var i := Find(id);
      if i == n {
        var k := FindLock(mu);
        assert k < n ==> t[k] in t;
        return if k == n then NotHeld else DeletedMeanwhile;
      }
      CountDown(i);
      r := Done;
    }

    /** Counts one acquisition less in slot `i`; the last entry takes the place of one that is no longer held. */
    method CountDown(i: nat)
      requires i < n <= MAX_LOCKS && locks.Length == MAX_LOCKS && forall k :: n <= k < MAX_LOCKS ==> locks[k] == CLEARED
      modifies this`n, locks
      ensures n <= MAX_LOCKS && forall k :: n <= k < MAX_LOCKS ==> locks[k] == CLEARED
      ensures var t := old(Contents());
              Contents() == if t[i].count == 1 then t[i := t[|t| - 1]][..|t| - 1] else t[i := t[i].(count := t[i].count - 1)]
    {
      if locks[i].count == 1 {
        n := n - 1;
        locks[i] := locks[n];
        locks[n] := CLEARED;
      } else {
        locks[i] := locks[i].(count := locks[i].count - 1);
      }
    }
  }

  /** The new table, by the slot that the search stops at. */
  lemma AcquireAt(t: seq<Lock>, mu: Ptr, id: Id)
    ensures var i := IndexOf(t, id);
            && (i < |t| ==> Acquired(t, mu, id) == t[i := t[i].(count := t[i].count + 1)])
            && (i == |t| ==> Acquired(t, mu, id) == if |t| == MAX_LOCKS then t else t + [Lock(mu, 1, id)])
  {
  }

  lemma ReleaseAt(t: seq<Lock>, id: Id)
    ensures var i := IndexOf(t, id);
            && (i == |t| ==> Released(t, id) == t)
            && (i < |t| && t[i].count == 1 ==> Released(t, id) == t[i := t[|t| - 1]][..|t| - 1])
            && (i < |t| && t[i].count != 1 ==> Released(t, id) == t[i := t[i].(count := t[i].count - 1)])
  {
  }

  lemma TimesIndex(t: seq<Lock>, id: Id)
    requires IsHeldTable(t)
    ensures Times(t, id) > 0 <==> IndexOf(t, id) < |t|
  {
  }

  lemma FirstIndex(t: seq<Lock>, id: Id, i: nat)
    requires i <= |t| && (forall j :: 0 <= j < i ==> t[j].id != id) && (i < |t| ==> t[i].id == id)
    ensures i == IndexOf(t, id)
  {
  }
}
