/** The path search that explains a rejected edge: depth first, with markers on the stack. */
module PathSearch {
  import opened Digraphs
  import opened GraphIds
  import opened GraphNodes
  import opened NodeSets
  import opened Searches

  /** Marks the point on the stack below which the search leaves the last node of its path. */
  const LEAVE := -1

  /** The stack belongs to the path: below as many markers as the path has nodes, it holds the start,
      and above the marker of a path node it holds successors of that node. */
  ghost predicate Layered(e: Edges, x: int, path: seq<int>, stack: seq<int>)
    decreases |stack|
  {
    if stack == [] then path == []
    else
      var rest, top := stack[..|stack| - 1], stack[|stack| - 1];
      if top == LEAVE then path != [] && Layered(e, x, path[..|path| - 1], rest)
      else Layered(e, x, path, rest) && (if path == [] then top == x else (path[|path| - 1], top) in e)
  }

  /** How many markers the stack has. */
  ghost function Markers(stack: seq<int>): nat {
    if stack == [] then 0
    else Markers(stack[..|stack| - 1]) + if stack[|stack| - 1] == LEAVE then 1 else 0
  }

  /** There are always as many markers on the stack as nodes on the path. */
  lemma {:induction false} MarkersCounted(e: Edges, x: int, path: seq<int>, stack: seq<int>)
    requires Layered(e, x, path, stack)
    ensures Markers(stack) == |path|
    decreases |stack|
  {
    if stack != [] {
      var leave := stack[|stack| - 1] == LEAVE;
      MarkersCounted(e, x, if leave then path[..|path| - 1] else path, stack[..|stack| - 1]);
    }
  }

  /** Nodes on the stack are new, and each is there once. */
  ghost predicate Pending(stack: seq<int>, seen: set<int>, x: int, done: set<int>) {
    && (forall k :: 0 <= k < |stack| && stack[k] != LEAVE ==> stack[k] !in done && (stack[k] == x || stack[k] in seen))
    && (forall j, k :: 0 <= j < k < |stack| && stack[j] == stack[k] ==> stack[j] == LEAVE)
  }

  /** What the search has established about the nodes it is done with. */
  ghost predicate Explored(e: Edges, x: int, y: int, stack: seq<int>, seen: set<int>, done: set<int>) {
    && x !in seen && y !in done && (x in done || x in stack)
    && (forall u, w :: u in done && (u, w) in e ==> w in seen)
    && (forall w :: w in seen ==> w in done || w in stack)
    && (forall u :: u in done ==> u == x || u in seen)
  }

  /** The path in the making starts at x. */
  ghost predicate Walk(e: Edges, x: int, path: seq<int>)
  {
    path != [] ==> IsPath(e, path) && path[0] == x
  }

  ghost predicate SearchState(e: Edges, n: nat, x: int, y: int, path: seq<int>, stack: seq<int>, seen: set<int>, done: set<int>) {
    && Acyclic(e) && Within(e, n) && 0 <= x < n && (forall u :: u in seen ==> 0 <= u < n)
    && Walk(e, x, path) && Layered(e, x, path, stack) && Pending(stack, seen, x, done) && Explored(e, x, y, stack, seen, done)
    && (path != [] ==> x in done)
  }

  lemma ShorterWalk(e: Edges, x: int, path: seq<int>)
    requires path != [] && Walk(e, x, path)
    ensures Walk(e, x, path[..|path| - 1])
  {
  }

  lemma Started(e: Edges, n: nat, x: int, y: int)
    requires Acyclic(e) && Within(e, n) && 0 <= x < n
    ensures SearchState(e, n, x, y, [], [x], {}, {})
  {
    assert [x][..0] == [];
  }

  /** Popping a marker takes the last node off the path. */
  lemma Left(e: Edges, n: nat, x: int, y: int, path: seq<int>, stack: seq<int>, seen: set<int>, done: set<int>)
    requires SearchState(e, n, x, y, path, stack, seen, done) && stack != [] && stack[|stack| - 1] == LEAVE
    ensures path != [] && SearchState(e, n, x, y, path[..|path| - 1], stack[..|stack| - 1], seen, done)
  {
    hide Acyclic, Within, Walk;
    assert Walk(e, x, path[..|path| - 1]) by { ShorterWalk(e, x, path); }
    var rest := stack[..|stack| - 1];
    assert stack == rest + [LEAVE];
    assert forall w :: w in stack <==> w in rest || w == LEAVE;
  }

  /** Node t, now the last of the path, is being expanded: `tried` are the successors looked at so far. */
  ghost predicate Expanding(e: Edges, n: nat, x: int, y: int, t: int, path: seq<int>, stack: seq<int>, seen: set<int>, done: set<int>, tried: set<int>) {
    && Acyclic(e) && Within(e, n) && 0 <= x < n && (forall u :: u in seen ==> 0 <= u < n)
    && Walk(e, x, path) && path != [] && path[|path| - 1] == t && Layered(e, x, path, stack) && Pending(stack, seen, x, done)
    && x !in seen && y !in done && t in done && x in done
    && (forall u, w :: u in done && u != t && (u, w) in e ==> w in seen)
    && (forall w :: w in tried ==> w in seen)
    && (forall w :: w in seen ==> w in done || w in stack)
    && (forall u :: u in done ==> u == x || u in seen)
    && (forall w :: (t, w) in e ==> w != x)
  }

  /** The node on top of the stack continues the path, and in an acyclic graph none of its successors is the start. */
  lemma WalkOn(e: Edges, x: int, path: seq<int>, rest: seq<int>, t: int)
    requires Acyclic(e) && Walk(e, x, path) && Layered(e, x, path, rest + [t]) && t != LEAVE
    ensures Walk(e, x, path + [t]) && Layered(e, x, path + [t], rest + [LEAVE])
    ensures forall w :: (t, w) in e ==> w != x
  {
    var path' := path + [t];
    assert (rest + [t])[..|rest|] == rest && (rest + [LEAVE])[..|rest|] == rest && path'[..|path|] == path;
    forall w | (t, w) in e ensures w != x {
      PathReach(e, path', 0, |path|);
    }
  }

  lemma PopPending(rest: seq<int>, t: int, seen: set<int>, x: int, done: set<int>)
    requires Pending(rest + [t], seen, x, done) && t != LEAVE
    ensures t !in done && t !in rest && Pending(rest + [LEAVE], seen, x, done + {t})
  {
    var stack, stack' := rest + [t], rest + [LEAVE];
    assert stack[|rest|] == t;
    forall k | 0 <= k < |rest| ensures stack'[k] == stack[k] == rest[k] && rest[k] != t {
    }
  }

  /** Popping a node extends the path by it. */
  lemma Entered(e: Edges, n: nat, x: int, y: int, path: seq<int>, stack: seq<int>, seen: set<int>, done: set<int>, t: int)
    requires SearchState(e, n, x, y, path, stack, seen, done) && stack != [] && t == stack[|stack| - 1] && t != LEAVE
    ensures 0 <= t < n && t !in done && Walk(e, x, path + [t])
    ensures t != y ==> Expanding(e, n, x, y, t, path + [t], stack[..|stack| - 1] + [LEAVE], seen, done + {t}, {})
  {
    hide Acyclic, Walk, Layered, Pending;
    var rest := stack[..|stack| - 1];
    assert stack == rest + [t];
    WalkOn(e, x, path, rest, t);
    PopPending(rest, t, seen, x, done);
    FirstOnPath(e, x, path, rest, t);
    PendingSource(rest, t, seen, x, done);
    assert forall w :: (w in stack <==> w in rest || w == t) && (w in rest + [LEAVE] <==> w in rest || w == LEAVE);
  }

  lemma FirstOnPath(e: Edges, x: int, path: seq<int>, rest: seq<int>, t: int)
    requires Layered(e, x, path, rest + [t]) && t != LEAVE
    ensures path == [] ==> t == x
  {
  }

  lemma PendingSource(rest: seq<int>, t: int, seen: set<int>, x: int, done: set<int>)
    requires Pending(rest + [t], seen, x, done) && t != LEAVE
    ensures t == x || t in seen
  {
    assert (rest + [t])[|rest|] == t;
  }

  /** A successor not seen before goes on the stack. */
  lemma Tried(e: Edges, n: nat, x: int, y: int, t: int, path: seq<int>, stack: seq<int>, seen: set<int>, done: set<int>, tried: set<int>, w: int)
    requires Expanding(e, n, x, y, t, path, stack, seen, done, tried) && (t, w) in e
    ensures Expanding(e, n, x, y, t, path, if w in seen then stack else stack + [w], seen + {w}, done, tried + {w})
  {
    assert 0 <= (t, w).1 < n;
    assert (stack + [w])[..|stack|] == stack;
  }

  /** After the last successor the search goes on. */
  lemma Expanded(e: Edges, n: nat, x: int, y: int, t: int, path: seq<int>, stack: seq<int>, seen: set<int>, done: set<int>, tried: set<int>)
    requires Expanding(e, n, x, y, t, path, stack, seen, done, tried) && forall w :: (t, w) in e ==> w in tried
    ensures SearchState(e, n, x, y, path, stack, seen, done)
  {
  }

  /** When the stack is empty everything reachable has been expanded, and y was not among it. */
  lemma Exhausted(e: Edges, n: nat, x: int, y: int, path: seq<int>, seen: set<int>, done: set<int>)
    requires SearchState(e, n, x, y, path, [], seen, done)
    ensures !Reach(e, x, y)
  {
    var s := iset u | u in done;
    if Reach(e, x, y) { ClosedReach(e, s, x, y); }
  }

  /** Pushes the successors of the last node of the path that have not been seen. */
  method PushUnseen(at: seq<Node>, t: int, stack: seq<int>, seen: NodeSet, ghost e: Edges, ghost x: int, ghost y: int,
                    ghost path: seq<int>, ghost done: set<int>) returns (stack': seq<int>)
    requires Stores(at, e) && 0 <= t < |at| && seen.Valid() && seen !in Neighbours(at)
    requires Expanding(e, |at|, x, y, t, path, stack, seen.elems, done, {})
    modifies seen
    ensures seen.Valid() && SearchState(e, |at|, x, y, path, stack', seen.elems, done)
  {
    hide Expanding, SearchState;
    stack' := stack;
    var outs, cursor := at[t].outs, 0;
    assert outs in Neighbours(at);
    ghost var tried := {};
    while true
      invariant cursor <= |outs.table| && tried == outs.Produced(cursor) && seen.Valid()
      invariant outs.Valid() && outs.elems == Successors(e, t)
      invariant Expanding(e, |at|, x, y, t, path, stack', seen.elems, done, tried)
      decreases |outs.table| - cursor
    {
      var more, cursor', w := outs.Next(cursor);
      if !more {
        Expanded(e, |at|, x, y, t, path, stack', seen.elems, done, tried);
        return;
      }
      Tried(e, |at|, x, y, t, path, stack', seen.elems, done, tried, w);
      assert (t, w) in e && 0 <= (t, w).1;
      var added := seen.Insert(w);
      if added {
        stack' := stack' + [w];
      }
      cursor, tried := cursor', tried + {w};
    }
  }

  /** The first `limit` ids of the path are in the buffer. */
  ghost predicate Recorded(at: seq<Node>, path: seq<int>, limit: int, buf: seq<Id>) {
    forall k :: 0 <= k < |path| && k < limit && k < |buf| ==> 0 <= path[k] < |at| && buf[k] == IdAt(at, path[k])
  }

  /** Records node `n` as the next of the path, if there is room. */
  method Record(at: seq<Node>, n: int, pathLen: nat, limit: int, buf: array<Id>, ghost path: seq<int>)
    requires 0 <= n < |at| && limit <= buf.Length && pathLen == |path| && Recorded(at, path, limit, buf[..])
    modifies buf
    ensures Recorded(at, path + [n], limit, buf[..])
  {
    if pathLen < limit {
      buf[pathLen] := IdAt(at, n);
    }
  }

  lemma NextTarget(n: nat, done: set<int>, t: int)
    requires 0 <= t < n && t !in done
    ensures Below(n) - (done + {t}) < Below(n) - done
  {
    assert t in Below(n) - done;
  }

  /** Finds a path from x to y, depth first; ids beyond `limit` are not recorded. */
  method Search(at: seq<Node>, x: int, y: int, limit: int, buf: array<Id>, ghost e: Edges) returns (len: nat, ghost path: seq<int>)
    requires Stores(at, e) && Acyclic(e) && 0 <= x < |at| && limit <= buf.Length
    modifies buf
    ensures len == 0 <==> !Reach(e, x, y)
    ensures len > 0 ==> |path| == len && Joins(e, path, x, y) && Recorded(at, path, limit, buf[..])
  {
    hide SearchState, Expanding, Reach, IsPath, Walk, Recorded, NodeSet.Valid;
    var stack := [x];
    var seen := new NodeSet(0);
    var pathLen := 0;
    ghost var done: set<int> := {};
    path := [];
    Started(e, |at|, x, y);
    NothingRecorded(at, limit, buf[..]);
    while stack != []
      invariant seen.Valid() && fresh(seen) && seen !in Neighbours(at) && Stores(at, e)
      invariant SearchState(e, |at|, x, y, path, stack, seen.elems, done)
      invariant pathLen == |path| && Recorded(at, path, limit, buf[..])
      decreases Below(|at|) - done, |stack|
    {
      var n := stack[|stack| - 1];
      if n < 0 {
        MarkerOnly(e, |at|, x, y, path, stack, seen.elems, done, n);
        Left(e, |at|, x, y, path, stack, seen.elems, done);
        RecordedPrefix(at, path, limit, buf[..]);
        stack, path := stack[..|stack| - 1], path[..|path| - 1];
        pathLen := pathLen - 1;
        continue;
      }
      Entered(e, |at|, x, y, path, stack, seen.elems, done, n);
      NextTarget(|at|, done, n);
      stack := stack[..|stack| - 1] + [LEAVE];
      Record(at, n, pathLen, limit, buf, path);
      path := path + [n];
      pathLen := pathLen + 1;
      if n == y {
        ReachedBy(e, x, y, path);
        return pathLen, path;
      }
      stack := PushUnseen(at, n, stack, seen, e, x, y, path, done + {n});
      done := done + {n};
    }
    Exhausted(e, |at|, x, y, path, seen.elems, done);
    return 0, [];
  }

  lemma NothingRecorded(at: seq<Node>, limit: int, buf: seq<Id>)
    ensures Recorded(at, [], limit, buf)
  {
  }

  lemma RecordedPrefix(at: seq<Node>, path: seq<int>, limit: int, buf: seq<Id>)
    requires path != [] && Recorded(at, path, limit, buf)
    ensures Recorded(at, path[..|path| - 1], limit, buf)
  {
  }

  lemma MarkerOnly(e: Edges, n: nat, x: int, y: int, path: seq<int>, stack: seq<int>, seen: set<int>, done: set<int>, t: int)
    requires SearchState(e, n, x, y, path, stack, seen, done) && stack != [] && t == stack[|stack| - 1] && t < 0
    ensures t == LEAVE && path != []
  {
  }

  lemma ReachedBy(e: Edges, x: int, y: int, path: seq<int>)
    requires path != [] && Walk(e, x, path) && path[|path| - 1] == y
    ensures Joins(e, path, x, y) && Reach(e, x, y)
  {
    PathReach(e, path, 0, |path| - 1);
  }
}
