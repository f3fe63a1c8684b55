/** The watchdog that reports threads which hold locks for too long. */
module Watchdog {
  import opened HeldLocks

  /** A watched thread: its held-lock table and whether its present hold has been reported. */
  datatype Entry = Entry(sync: SynchLocksHeld, thread: int, alreadyLogged: bool)

  /** What a tick sees of a thread. */
  datatype Watched = Watched(start: nat, logged: bool)

  /** The thread holds nothing, or has its watch suspended by a start time that lies ahead. */
  predicate Resting(w: Watched, now: nat) {
    w.start == 0 || w.start >= now
  }

  /** The thread has held a lock for at least `limit` milliseconds and not been reported for it. */
  predicate Due(w: Watched, now: nat, limit: nat) {
    !Resting(w, now) && !w.logged && now - w.start >= limit
  }

  function FirstDue(ws: seq<Watched>, now: nat, limit: nat): (i: nat)
    ensures i <= |ws| && (i < |ws| ==> Due(ws[i], now, limit)) && forall j :: 0 <= j < i ==> !Due(ws[j], now, limit)
  {
    if ws == [] || Due(ws[0], now, limit) then 0 else 1 + FirstDue(ws[1..], now, limit)
  }

  /** The flag of thread `j` after a tick that reports thread `i`: threads behind it are not looked at. */
  function LoggedAfter(w: Watched, j: int, i: int, now: nat): bool {
    if j < i then !Resting(w, now) && w.logged else j == i || w.logged
  }

  function MaxDuration(maxDurationSec: nat, debuggerPresent: bool): nat {
    if maxDurationSec <= 120 && debuggerPresent then 120 else maxDurationSec
  }

  ghost function View(threads: seq<Entry>): (ws: seq<Watched>)
    reads set k | 0 <= k < |threads| :: threads[k].sync
    ensures |ws| == |threads| && forall k :: 0 <= k < |ws| ==> ws[k] == Watched(threads[k].sync.startTime, threads[k].alreadyLogged)
  {
    seq(|threads|, k requires 0 <= k < |threads| reads (set j | 0 <= j < |threads| :: threads[j].sync) => Watched(threads[k].sync.startTime, threads[k].alreadyLogged))
  }

  class ThreadWatchdog {
    const enabled: bool
    const maxDurationSec: nat
    const debuggerPresent: bool
    var threads: seq<Entry>
    /** The intervals in seconds for which the timer has been started, in order. */
    var timers: seq<nat>

    constructor (enabled: bool, maxDurationSec: nat, debuggerPresent: bool)
      ensures threads == [] && timers == []
      ensures this.enabled == enabled && this.maxDurationSec == maxDurationSec && this.debuggerPresent == debuggerPresent
    {
      this.enabled, this.maxDurationSec, this.debuggerPresent := enabled, maxDurationSec, debuggerPresent;
      threads, timers := [], [];
    }

    /** Starts to watch a thread; the first one starts the timer. */
    method AddThread(thread: int, sync: SynchLocksHeld)
      modifies this
      ensures threads == old(threads) + if enabled then [Entry(sync, thread, false)] else []
      ensures timers == old(timers) + if enabled && old(threads) == [] then [if maxDurationSec >= 10 then 5 else 1] else []
    {
      if !enabled { return; }
      threads := threads + [Entry(sync, thread, false)];
      if |threads| == 1 { timers := timers + [if maxDurationSec >= 10 then 5 else 1]; }
    }

    /** The position of the first entry of a thread, or their number. */
    method Position(thread: int) returns (i: nat)
      ensures i <= |threads| && (i < |threads| ==> threads[i].thread == thread) && forall k :: 0 <= k < i ==> threads[k].thread != thread
    {
      i := 0;
      while i != |threads| && threads[i].thread != thread
        invariant 0 <= i <= |threads| && forall k :: 0 <= k < i ==> threads[k].thread != thread
        decreases |threads| - i
      {
        i := i + 1;
      }
    }

    /** Stops to watch a thread; the last entry takes its place. */
    method RemoveThread(thread: int)
      modifies this`threads
      ensures !enabled || (forall e :: e in old(threads) ==> e.thread != thread) ==> threads == old(threads)
      ensures enabled && (exists e :: e in old(threads) && e.thread == thread) ==>
                exists e :: e in old(threads) && e.thread == thread && multiset(threads) == multiset(old(threads)) - multiset{e}
      ensures enabled ==> forall i :: 0 <= i < |old(threads)| && old(threads)[i].thread == thread && (forall k :: 0 <= k < i ==> old(threads)[k].thread != thread) ==>
                |threads| == |old(threads)| - 1 && forall k :: 0 <= k < |threads| ==> threads[k] == old(threads)[if k == i then |threads| else k]
    {
      if !enabled { return; }
      var i := Position(thread);
      if i == |threads| { return; }
      SwapRemoved(threads, i);
      assert threads[i] in threads;
      threads := threads[i := threads[|threads| - 1]];
      threads := threads[..|threads| - 1];
    }

    /** One tick of the timer: reports at most one thread, the first that is due, and says for how many seconds. */
    method OneShotTimerCallback(now: nat) returns (reported: SynchLocksHeld?, seconds: nat)
      modifies this
      ensures var ws, i := old(View(threads)), FirstDue(old(View(threads)), now, MaxDuration(maxDurationSec, debuggerPresent) * 1000);
              && |threads| == |ws|
              && (forall j :: 0 <= j < |ws| ==> threads[j] == old(threads)[j].(alreadyLogged := LoggedAfter(ws[j], j, i, now)))
              && (if i < |ws| then reported == threads[i].sync && seconds == (now - ws[i].start) / 1000 else reported == null && seconds == 0)
      ensures var ws := old(View(threads));
              reported != null <==> (exists j :: 0 <= j < |ws| && !ws[j].logged && 0 < ws[j].start < now && now - ws[j].start >= maxDurationSec * 1000
                                                 && (debuggerPresent ==> now - ws[j].start >= 120 * 1000))
      ensures timers == old(timers) + if |threads| == 0 then [] else [if maxDurationSec >= 10 then 5 else 1]
    {
      hide FirstDue, LoggedAfter, MaxDuration;
      TickExact(View(threads), now, maxDurationSec, debuggerPresent);
      reported, seconds := FindLongLocked(now);
      if |threads| != 0 { timers := timers + [if maxDurationSec >= 10 then 5 else 1]; }
    }

    /** Looks for the first thread that is due, and updates the flags on the way. */
    method FindLongLocked(now: nat) returns (reported: SynchLocksHeld?, seconds: nat)
      modifies this`threads
      ensures var ws, i := old(View(threads)), FirstDue(old(View(threads)), now, MaxDuration(maxDurationSec, debuggerPresent) * 1000);
              && |threads| == |ws|
              && (forall j :: 0 <= j < |ws| ==> threads[j] == old(threads)[j].(alreadyLogged := LoggedAfter(ws[j], j, i, now)))
              && (if i < |ws| then reported == threads[i].sync && seconds == (now - ws[i].start) / 1000 else reported == null && seconds == 0)
    {
      ghost var old0, ws := threads, View(threads);
      var max := MaxDuration(maxDurationSec, debuggerPresent);
      reported, seconds := null, 0;
      var i := 0;
      while i < |threads|
        invariant 0 <= i <= |threads| == |ws| && reported == null && seconds == 0
        invariant forall j :: 0 <= j < i ==> !Due(ws[j], now, max * 1000)
        invariant forall j :: 0 <= j < |ws| ==> threads[j] == old0[j].(alreadyLogged := if j < i then !Resting(ws[j], now) && ws[j].logged else ws[j].logged)
      {
        var start := threads[i].sync.startTime;
        if start == 0 || start >= now {
          threads := threads[i := threads[i].(alreadyLogged := false)];
          i := i + 1;
          continue;
        }
        if threads[i].alreadyLogged {
          i := i + 1;
          continue;
        }
        var elapsed := now - start;
        if elapsed >= max * 1000 {
          reported := threads[i].sync;
          threads := threads[i := threads[i].(alreadyLogged := true)];
          seconds := elapsed / 1000;
          break;
        }
        i := i + 1;
      }
      FirstDueIs(ws, now, max * 1000, i);
    }
  }

  /** What a tick reports and what it leaves of the flags, in full: the first thread that is not flagged, does not rest, and has
      held a lock for as long as the options say, but for no less than two minutes under a debugger. Flags of resting threads
      before it are cleared, its own is set, and all others stay. */
  lemma TickExact(ws: seq<Watched>, now: nat, maxDurationSec: nat, debuggerPresent: bool)
    ensures var i := FirstDue(ws, now, MaxDuration(maxDurationSec, debuggerPresent) * 1000);
            && (forall j :: 0 <= j < i ==> ws[j].logged || ws[j].start == 0 || ws[j].start >= now
                                           || now - ws[j].start < maxDurationSec * 1000 || (debuggerPresent && now - ws[j].start < 120 * 1000))
            && (i < |ws| ==> !ws[i].logged && 0 < ws[i].start < now
                             && now - ws[i].start >= maxDurationSec * 1000 && (debuggerPresent ==> now - ws[i].start >= 120 * 1000))
            && (forall j :: 0 <= j < |ws| ==> (LoggedAfter(ws[j], j, i, now) <==>
                                                j == i || (ws[j].logged && (j > i || 0 < ws[j].start < now))))
  {
  }

  lemma FirstDueIs(ws: seq<Watched>, now: nat, limit: nat, i: nat)
    requires i <= |ws| && (i < |ws| ==> Due(ws[i], now, limit)) && forall j :: 0 <= j < i ==> !Due(ws[j], now, limit)
    ensures FirstDue(ws, now, limit) == i
  {
  }

  lemma SwapRemoved(s: seq<Entry>, i: nat)
    requires i < |s|
    ensures multiset(s[i := s[|s| - 1]][..|s| - 1]) == multiset(s) - multiset{s[i]}
  {
    var n := |s| - 1;
    assert s == s[..n] + [s[n]];
    var t := s[i := s[n]];
    assert t == t[..n] + [s[n]];
  }

  // Runs of ticks over the same threads.

  /** What one tick finds: the time and the start times of the threads. */
  datatype Tick = Tick(now: nat, starts: seq<nat>)

  ghost function Seen(flags: seq<bool>, tick: Tick): (ws: seq<Watched>)
    requires |flags| == |tick.starts|
    ensures |ws| == |flags| && forall k :: 0 <= k < |ws| ==> ws[k] == Watched(tick.starts[k], flags[k])
  {
    seq(|flags|, k requires 0 <= k < |flags| => Watched(tick.starts[k], flags[k]))
  }

  /** The thread a tick reports, or their number. */
  ghost function Reports(flags: seq<bool>, tick: Tick, limit: nat): (i: nat)
    requires |flags| == |tick.starts|
    ensures i <= |flags|
  {
    FirstDue(Seen(flags, tick), tick.now, limit)
  }

  ghost function Next(flags: seq<bool>, tick: Tick, limit: nat): (r: seq<bool>)
    requires |flags| == |tick.starts|
    ensures |r| == |flags|
  {
    seq(|flags|, j requires 0 <= j < |flags| => LoggedAfter(Seen(flags, tick)[j], j, Reports(flags, tick, limit), tick.now))
  }

  ghost predicate IsRun(flags: seq<seq<bool>>, ticks: seq<Tick>, n: nat, limit: nat) {
    && |flags| == |ticks| + 1
    && (forall k :: 0 <= k < |flags| ==> |flags[k]| == n)
    && (forall k :: 0 <= k < |ticks| ==> |ticks[k].starts| == n)
    && forall k, m :: 0 <= k && m == k + 1 && m < |flags| ==> flags[m] == Next(flags[k], ticks[k], limit)
  }

  /** Tick k reported thread j. */
  ghost predicate ReportedAt(flags: seq<seq<bool>>, ticks: seq<Tick>, limit: nat, k: nat, j: nat)
    requires k < |ticks| && k < |flags| && |flags[k]| == |ticks[k].starts|
  {
    Reports(flags[k], ticks[k], limit) == j
  }

  /** Tick k looked at thread j and found it at rest. */
  ghost predicate SeenResting(flags: seq<seq<bool>>, ticks: seq<Tick>, limit: nat, k: nat, j: nat)
    requires k < |ticks| && k < |flags| && j < |flags[k]| == |ticks[k].starts|
  {
    j < Reports(flags[k], ticks[k], limit) && Resting(Watched(ticks[k].starts[j], flags[k][j]), ticks[k].now)
  }

  lemma FlagStep(flags: seq<seq<bool>>, ticks: seq<Tick>, n: nat, limit: nat, k: nat, j: nat)
    requires IsRun(flags, ticks, n, limit) && k < |ticks| && j < n
    ensures flags[k + 1][j] == (ReportedAt(flags, ticks, limit, k, j) || (flags[k][j] && !SeenResting(flags, ticks, limit, k, j)))
  {
    var m := k + 1;
    assert flags[m] == Next(flags[k], ticks[k], limit);
  }

  /** Once reported, a thread stays flagged as long as no tick sees it at rest. */
  lemma {:induction false} FlagStays(flags: seq<seq<bool>>, ticks: seq<Tick>, n: nat, limit: nat, a: nat, b: nat, j: nat)
    requires IsRun(flags, ticks, n, limit) && a < b <= |ticks| && j < n && ReportedAt(flags, ticks, limit, a, j)
    requires forall c :: a < c < b ==> !SeenResting(flags, ticks, limit, c, j)
    ensures flags[b][j]
    decreases b
  {
    FlagStep(flags, ticks, n, limit, b - 1, j);
    if a < b - 1 { FlagStays(flags, ticks, n, limit, a, b - 1, j); }
  }

  /** Tick a reported thread j, and no tick between a and b has seen it at rest. */
  ghost predicate StillReported(flags: seq<seq<bool>>, ticks: seq<Tick>, n: nat, limit: nat, a: nat, b: nat, j: nat)
    requires IsRun(flags, ticks, n, limit) && b <= |ticks| && j < n
  {
    a < b && ReportedAt(flags, ticks, limit, a, j) && forall c :: a < c < b ==> !SeenResting(flags, ticks, limit, c, j)
  }

  /** The flag of a thread says exactly that it has been reported and not been seen at rest since. */
  lemma {:induction false} FlagExact(flags: seq<seq<bool>>, ticks: seq<Tick>, n: nat, limit: nat, b: nat, j: nat)
    requires IsRun(flags, ticks, n, limit) && b <= |ticks| && j < n && !flags[0][j]
    ensures flags[b][j] <==> exists a :: StillReported(flags, ticks, n, limit, a, b, j)
    decreases b
  {
    hide Reports, Resting;
    if a :| StillReported(flags, ticks, n, limit, a, b, j) {
      FlagStays(flags, ticks, n, limit, a, b, j);
    }
    if flags[b][j] {
      var c := b - 1;
      FlagStep(flags, ticks, n, limit, c, j);
      if ReportedAt(flags, ticks, limit, c, j) {
        assert StillReported(flags, ticks, n, limit, c, b, j);
      } else {
        FlagExact(flags, ticks, n, limit, c, j);
        var a :| StillReported(flags, ticks, n, limit, a, c, j);
        StillReportedOn(flags, ticks, n, limit, a, c, j);
      }
    }
  }

  lemma StillReportedOn(flags: seq<seq<bool>>, ticks: seq<Tick>, n: nat, limit: nat, a: nat, b: nat, j: nat)
    requires IsRun(flags, ticks, n, limit) && b < |ticks| && j < n
    requires StillReported(flags, ticks, n, limit, a, b, j) && !SeenResting(flags, ticks, limit, b, j)
    ensures StillReported(flags, ticks, n, limit, a, b + 1, j)
  {
  }

  /** A thread is not reported again before some tick in between has seen it at rest. */
  lemma ReportedOncePerRest(flags: seq<seq<bool>>, ticks: seq<Tick>, n: nat, limit: nat, a: nat, b: nat, j: nat)
    requires IsRun(flags, ticks, n, limit) && a < b < |ticks| && j < n
    requires ReportedAt(flags, ticks, limit, a, j) && ReportedAt(flags, ticks, limit, b, j)
    ensures exists c :: a < c < b && SeenResting(flags, ticks, limit, c, j)
  {
    if forall c :: a < c < b ==> !SeenResting(flags, ticks, limit, c, j) {
      FlagStays(flags, ticks, n, limit, a, b, j);
    }
  }

  /** At the ticks from a to before b the thread holds a lock since the same moment. */
  ghost predicate HoldsSince(ticks: seq<Tick>, n: nat, a: nat, b: nat, j: nat, start: nat)
    requires b <= |ticks| && j < n && forall k :: 0 <= k < |ticks| ==> |ticks[k].starts| == n
  {
    start > 0 && forall k :: a <= k < b ==> ticks[k].starts[j] == start < ticks[k].now
  }

  /** A continuous hold is reported at most once. */
  lemma HoldReportedOnce(flags: seq<seq<bool>>, ticks: seq<Tick>, n: nat, limit: nat, a: nat, b: nat, j: nat, start: nat, k: nat, m: nat)
    requires IsRun(flags, ticks, n, limit) && a <= k < b <= |ticks| && a <= m < b && j < n && HoldsSince(ticks, n, a, b, j, start)
    requires ReportedAt(flags, ticks, limit, k, j) && ReportedAt(flags, ticks, limit, m, j)
    ensures k == m
  {
    var lo, hi := if k < m then k else m, if k < m then m else k;
    if lo < hi {
      ReportedOncePerRest(flags, ticks, n, limit, lo, hi, j);
    }
  }

  /** At tick k the thread has held a lock for at least the limit. */
  ghost predicate OverdueAt(ticks: seq<Tick>, limit: nat, k: nat, j: nat)
    requires k < |ticks| && j < |ticks[k].starts|
  {
    Due(Watched(ticks[k].starts[j], false), ticks[k].now, limit)
  }

  /** At tick k no thread before thread j is due, so the tick gets to thread j. */
  ghost predicate Unobstructed(flags: seq<seq<bool>>, ticks: seq<Tick>, limit: nat, k: nat, j: nat)
    requires k < |ticks| && k < |flags| && j < |flags[k]| == |ticks[k].starts|
  {
    forall i :: 0 <= i < j ==> !Due(Watched(ticks[k].starts[i], flags[k][i]), ticks[k].now, limit)
  }

  /** One tick reports an overdue thread exactly if it is not flagged and no thread before it is due. */
  lemma TickReports(flags: seq<seq<bool>>, ticks: seq<Tick>, n: nat, limit: nat, k: nat, j: nat)
    requires IsRun(flags, ticks, n, limit) && k < |ticks| && j < n && OverdueAt(ticks, limit, k, j)
    ensures ReportedAt(flags, ticks, limit, k, j) <==> !flags[k][j] && Unobstructed(flags, ticks, limit, k, j)
  {
    var ws := Seen(flags[k], ticks[k]);
    var i := FirstDue(ws, ticks[k].now, limit);
    assert i < j ==> Due(ws[i], ticks[k].now, limit);
    assert j < i ==> !Due(ws[j], ticks[k].now, limit);
    assert forall m :: 0 <= m < j ==> ws[m] == Watched(ticks[k].starts[m], flags[k][m]);
  }

  /** While a thread is overdue, its flag says whether it was flagged before or has been reported meanwhile. */
  lemma {:induction false} FlagWhileOverdue(flags: seq<seq<bool>>, ticks: seq<Tick>, n: nat, limit: nat, a: nat, b: nat, j: nat)
    requires IsRun(flags, ticks, n, limit) && a <= b <= |ticks| && j < n && forall k :: a <= k < b ==> OverdueAt(ticks, limit, k, j)
    ensures flags[b][j] <==> flags[a][j] || exists k :: a <= k < b && ReportedAt(flags, ticks, limit, k, j)
    decreases b
  {
    if a < b {
      FlagWhileOverdue(flags, ticks, n, limit, a, b - 1, j);
      FlagStep(flags, ticks, n, limit, b - 1, j);
      assert OverdueAt(ticks, limit, b - 1, j);
    }
  }

  /** Exactly when an overdue hold is reported: at the ticks from a to before b, throughout which the thread is overdue, it is
      reported iff it was not flagged at the beginning and at one of these ticks no thread before it is due. */
  lemma OverdueReported(flags: seq<seq<bool>>, ticks: seq<Tick>, n: nat, limit: nat, a: nat, b: nat, j: nat)
    requires IsRun(flags, ticks, n, limit) && a <= b <= |ticks| && j < n && forall k :: a <= k < b ==> OverdueAt(ticks, limit, k, j)
    ensures (exists k :: a <= k < b && ReportedAt(flags, ticks, limit, k, j)) <==>
              !flags[a][j] && exists k :: a <= k < b && Unobstructed(flags, ticks, limit, k, j)
  {
    if k :| a <= k < b && ReportedAt(flags, ticks, limit, k, j) {
      TickReports(flags, ticks, n, limit, k, j);
      FlagWhileOverdue(flags, ticks, n, limit, a, k, j);
    }
    if k :| a <= k < b && Unobstructed(flags, ticks, limit, k, j) && !flags[a][j] {
      TickReports(flags, ticks, n, limit, k, j);
      FlagWhileOverdue(flags, ticks, n, limit, a, k, j);
    }
  }

  /** The same in terms of history: the overdue hold is reported iff the thread has not been reported before without having been
      seen at rest since, and some tick gets to it. */
  lemma OverdueReportedSince(flags: seq<seq<bool>>, ticks: seq<Tick>, n: nat, limit: nat, a: nat, b: nat, j: nat)
    requires IsRun(flags, ticks, n, limit) && a <= b <= |ticks| && j < n && !flags[0][j]
    requires forall k :: a <= k < b ==> OverdueAt(ticks, limit, k, j)
    ensures (exists k :: a <= k < b && ReportedAt(flags, ticks, limit, k, j)) <==>
              (forall r :: !StillReported(flags, ticks, n, limit, r, a, j)) && exists k :: a <= k < b && Unobstructed(flags, ticks, limit, k, j)
  {
    OverdueReported(flags, ticks, n, limit, a, b, j);
    FlagExact(flags, ticks, n, limit, a, j);
  }

  /** A way to be missed: a second hold that begins between two ticks, one second apart, is not reported by any number of later ticks. */
  lemma SecondHoldMissed(later: nat) returns (flags: seq<seq<bool>>, ticks: seq<Tick>)
    ensures IsRun(flags, ticks, 1, 5000) && |ticks| == later + 1 && ticks[0] == Tick(6000, [1000]) && ReportedAt(flags, ticks, 5000, 0, 0)
    ensures forall k :: 0 < k <= later ==> ticks[k] == Tick(6000 + 1000 * k, [6500]) && !ReportedAt(flags, ticks, 5000, k, 0)
  {
    flags := [[false]] + seq(later + 1, _ => [true]);
    ticks := seq(later + 1, k requires 0 <= k => if k == 0 then Tick(6000, [1000]) else Tick(6000 + 1000 * k, [6500]));
    assert Due(Seen([false], ticks[0])[0], 6000, 5000);
    forall k, m | 0 <= k && m == k + 1 && m < |flags| ensures flags[m] == Next(flags[k], ticks[k], 5000) && (k > 0 ==> Reports(flags[k], ticks[k], 5000) == 1) {
      if k > 0 {
        assert !Due(Seen([true], ticks[k])[0], ticks[k].now, 5000);
      }
      assert Next(flags[k], ticks[k], 5000) == [true];
    }
  }

  /** Another way: thread 1 is overdue at the first tick, which reports thread 0 and stops there; a second later the hold has ended. */
  lemma StarvedHold() returns (flags: seq<seq<bool>>, ticks: seq<Tick>)
    ensures IsRun(flags, ticks, 2, 5000) && ticks == [Tick(10000, [4500, 4600]), Tick(11000, [4500, 0])] && !flags[0][1]
    ensures OverdueAt(ticks, 5000, 0, 1) && forall k :: 0 <= k < 2 ==> !ReportedAt(flags, ticks, 5000, k, 1)
  {
    ticks := [Tick(10000, [4500, 4600]), Tick(11000, [4500, 0])];
    flags := [[false, false], [true, false], [true, false]];
    assert Due(Seen(flags[0], ticks[0])[0], 10000, 5000);
    assert Next(flags[0], ticks[0], 5000) == flags[1];
    assert forall j :: 0 <= j < 2 ==> !Due(Seen(flags[1], ticks[1])[j], 11000, 5000);
    assert Reports(flags[1], ticks[1], 5000) == 2;
    assert Next(flags[1], ticks[1], 5000) == flags[2];
  }

  /** The thread is still to be reported, or at rest. */
  ghost predicate Open(flags: seq<bool>, tick: Tick, j: int) {
    0 <= j < |flags| && j < |tick.starts| && (!flags[j] || Resting(Watched(tick.starts[j], flags[j]), tick.now))
  }

  /** How many of the first m threads are open. */
  ghost function OpenCount(flags: seq<bool>, tick: Tick, m: nat): (c: nat)
    ensures c <= m
  {
    if m == 0 then 0 else OpenCount(flags, tick, m - 1) + if Open(flags, tick, m - 1) then 1 else 0
  }

  lemma {:induction false} OpenCounted(flags: seq<bool>, tick: Tick, m: nat, j: nat)
    requires j < m && Open(flags, tick, j)
    ensures OpenCount(flags, tick, m) > 0
  {
    if j < m - 1 { OpenCounted(flags, tick, m - 1, j); }
  }

  /** A tick that reports one of the first m threads settles it, and time settles more. */
  lemma {:induction false} OpenCountDrops(flags: seq<bool>, tick: Tick, tick': Tick, limit: nat, m: nat)
    requires |flags| == |tick.starts| == |tick'.starts| && tick.now <= tick'.now && m <= |flags|
    requires forall i :: 0 <= i < m ==> tick'.starts[i] == tick.starts[i]
    ensures OpenCount(Next(flags, tick, limit), tick', m) <= OpenCount(flags, tick, m) - (if Reports(flags, tick, limit) < m then 1 else 0)
  {
    if m > 0 { OpenCountDrops(flags, tick, tick', limit, m - 1); }
  }

  /** The start times of the first m threads stay as they are from tick to tick, and time does not run backwards. */
  ghost predicate Steady(ticks: seq<Tick>, m: nat) {
    forall a, b :: 0 <= a <= b < |ticks| ==>
      ticks[a].now <= ticks[b].now && m <= |ticks[a].starts| && m <= |ticks[b].starts| && ticks[a].starts[..m] == ticks[b].starts[..m]
  }

  lemma SteadyAt(ticks: seq<Tick>, m: nat, a: nat, b: nat, i: nat)
    requires Steady(ticks, m) && a <= b < |ticks| && i < m
    ensures i < |ticks[a].starts| && i < |ticks[b].starts| && ticks[a].starts[i] == ticks[b].starts[i] && ticks[a].now <= ticks[b].now
  {
    assert ticks[a].starts[..m][i] == ticks[b].starts[..m][i];
  }

  lemma {:induction false} Progress(flags: seq<seq<bool>>, ticks: seq<Tick>, n: nat, limit: nat, k: nat, j: nat)
    requires IsRun(flags, ticks, n, limit) && k < |ticks| && j < n && Steady(ticks, j + 1)
    requires Due(Watched(ticks[0].starts[j], flags[0][j]), ticks[0].now, limit)
    requires forall c :: 0 <= c < k ==> !ReportedAt(flags, ticks, limit, c, j)
    ensures Due(Watched(ticks[k].starts[j], flags[k][j]), ticks[k].now, limit) && OpenCount(flags[k], ticks[k], j + 1) + k <= j + 1
    decreases k
  {
    hide Due, OpenCount, Steady, Next, Reports;
    if k > 0 {
      var i := k - 1;
      Progress(flags, ticks, n, limit, i, j);
      assert !ReportedAt(flags, ticks, limit, i, j);
      ProgressStep(flags, ticks, n, limit, i, j);
    }
  }

  lemma ProgressStep(flags: seq<seq<bool>>, ticks: seq<Tick>, n: nat, limit: nat, i: nat, j: nat)
    requires IsRun(flags, ticks, n, limit) && i + 1 < |ticks| && j < n && Steady(ticks, j + 1)
    requires Due(Watched(ticks[i].starts[j], flags[i][j]), ticks[i].now, limit) && !ReportedAt(flags, ticks, limit, i, j)
    ensures Due(Watched(ticks[i + 1].starts[j], flags[i + 1][j]), ticks[i + 1].now, limit)
    ensures OpenCount(flags[i + 1], ticks[i + 1], j + 1) < OpenCount(flags[i], ticks[i], j + 1)
  {
    hide OpenCount, Steady;
    var k := i + 1;
    FlagStep(flags, ticks, n, limit, i, j);
    SomeReport(flags[i], ticks[i], limit, j);
    forall m | 0 <= m < j + 1 ensures ticks[k].starts[m] == ticks[i].starts[m] && ticks[i].now <= ticks[k].now {
      SteadyAt(ticks, j + 1, i, k, m);
    }
    SteadyAt(ticks, j + 1, i, k, j);
    OpenCountDrops(flags[i], ticks[i], ticks[k], limit, j + 1);
    assert flags[k] == Next(flags[i], ticks[i], limit);
  }

  /** When a thread is due, a tick reports it or a thread before it. */
  lemma SomeReport(flags: seq<bool>, tick: Tick, limit: nat, j: nat)
    requires |flags| == |tick.starts| && j < |flags| && Due(Watched(tick.starts[j], flags[j]), tick.now, limit)
    ensures Reports(flags, tick, limit) <= j
  {
  }

  /** While the start times of a thread that is due and of those before it stay as they are, it is reported within as many ticks
      as these threads are. */
  lemma DueIsReported(flags: seq<seq<bool>>, ticks: seq<Tick>, n: nat, limit: nat, j: nat)
    requires IsRun(flags, ticks, n, limit) && j < n && j < |ticks| && Steady(ticks, j + 1)
    requires Due(Watched(ticks[0].starts[j], flags[0][j]), ticks[0].now, limit)
    ensures exists k :: 0 <= k <= j && ReportedAt(flags, ticks, limit, k, j)
  {
    if forall k :: 0 <= k <= j ==> !ReportedAt(flags, ticks, limit, k, j) {
      Progress(flags, ticks, n, limit, j, j);
      SomeReport(flags[j], ticks[j], limit, j);
      OpenCountDrops(flags[j], ticks[j], ticks[j], limit, j + 1);
      assert !ReportedAt(flags, ticks, limit, j, j);
      assert Open(Next(flags[j], ticks[j], limit), ticks[j], j);
      OpenCounted(Next(flags[j], ticks[j], limit), ticks[j], j + 1, j);
    }
  }
}
