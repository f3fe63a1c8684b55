/** Incremental cycle detection on the lock-order graph. */
module Cycles {
  import opened Digraphs
  import opened GraphIds
  import opened GraphNodes
  import opened NeighbourLinks
  import opened NodeSets
  import opened PearceKelly
  import PathSearch
  import opened Searches

  /** The node an id was issued for; its present version is at least that of the id. */
  ghost predicate Refers(at: seq<Node>, id: Id) {
    var i := NodeIndex(id);
    0 <= i < |at| && 1 <= NodeVersion(id) <= at[i].version && id == MakeId(i, NodeVersion(id))
  }

  /** Pointer `p` currently has id `id`. */
  ghost predicate Names(at: seq<Node>, p: Ptr, id: Id) {
    var i := NodeIndex(id);
    p != 0 && 0 <= i < |at| && at[i].maskedPtr == p && id == IdAt(at, i)
  }

  /** What ties nodes to the pointers and ids in use: `cur` gives the live pointers their ids, `issued`
      holds all ids ever given out, and the nodes of `free` wait for reuse under an id not yet issued. */
  ghost predicate Registered(at: seq<Node>, members: set<int>, free: seq<int>, cur: map<Ptr, Id>, issued: set<Id>) {
    && |at| <= MAX_NODES
    && (forall i :: i in members <==> 0 <= i < |at| && at[i].maskedPtr != 0)
    && (forall i :: 0 <= i < |at| ==> 1 <= at[i].version <= MAX_VERSION)
    && (forall i :: i in members ==> at[i].maskedPtr in cur && cur[at[i].maskedPtr] == IdAt(at, i))
    && (forall p :: p in cur ==> Names(at, p, cur[p]) && cur[p] in issued)
    && (forall id :: id in issued ==> Refers(at, id))
    && (forall k :: 0 <= k < |free| ==> 0 <= free[k] < |at| && at[free[k]].maskedPtr == 0 && IdAt(at, free[k]) !in issued)
    && Distinct(free)
  }

  /** No edge touches a node that waits for reuse. */
  ghost predicate FreeOfEdges(e: Edges, free: seq<int>) {
    forall i :: i in free ==> Successors(e, i) == {} && Predecessors(e, i) == {}
  }

  /** Present ids of different nodes differ. */
  lemma IdsInjective(at: seq<Node>)
    requires |at| <= MAX_NODES && forall i :: 0 <= i < |at| ==> 1 <= at[i].version <= MAX_VERSION
    ensures Distinct(Ids(at))
    ensures forall i :: 0 <= i < |at| ==> NodeIndex(IdAt(at, i)) == i && NodeVersion(IdAt(at, i)) == at[i].version && IdAt(at, i) != 0
  {
    forall i | 0 <= i < |at| ensures NodeIndex(IdAt(at, i)) == i && NodeVersion(IdAt(at, i)) == at[i].version && IdAt(at, i) != 0 {
      UnpackPacked(i, at[i].version);
    }
  }

  /** A new pointer `p` is registered for node `i` under the node's present id. */
  lemma Register(at: seq<Node>, at': seq<Node>, members: set<int>, free: seq<int>, free': seq<int>, cur: map<Ptr, Id>, issued: set<Id>,
                 p: Ptr, i: int)
    requires Registered(at, members, free, cur, issued) && p != 0 && p !in cur
    requires |at| <= |at'| <= MAX_NODES && 0 <= i < |at'| && at'[i].maskedPtr == p && 1 <= at'[i].version <= MAX_VERSION
    requires forall j :: 0 <= j < |at'| && j != i ==> j < |at| && at'[j].version == at[j].version && at'[j].maskedPtr == at[j].maskedPtr
    requires i < |at| ==> at[i].maskedPtr == 0 && at'[i].version == at[i].version && IdAt(at, i) !in issued
    requires Distinct(free') && forall j :: j in free' ==> j in free && j != i
    ensures IdAt(at', i) !in issued && IdAt(at', i) != 0
    ensures Registered(at', members + {i}, free', cur[p := IdAt(at', i)], issued + {IdAt(at', i)})
  {
    UnpackPacked(i, at'[i].version);
    forall k | 0 <= k < |free'| ensures free'[k] in free && free'[k] != i && IdAt(at', free'[k]) != IdAt(at', i) {
      assert free'[k] in free';
      UnpackPacked(free'[k], at'[free'[k]].version);
    }
  }

  /** `at'` is `at` after node `i` has given up its pointer and, unless exhausted, its version. */
  ghost predicate Retired(at: seq<Node>, at': seq<Node>, i: int) {
    && 0 <= i < |at| == |at'|
    && at'[i].maskedPtr == 0 && at'[i].version == (if at[i].version == MAX_VERSION then MAX_VERSION else at[i].version + 1)
    && forall j :: 0 <= j < |at| && j != i ==> at'[j].version == at[j].version && at'[j].maskedPtr == at[j].maskedPtr
  }

  /** The next version of a node makes an id that has not been issued. */
  lemma NextIdFresh(at: seq<Node>, issued: set<Id>, i: int)
    requires |at| <= MAX_NODES && 0 <= i < |at| && 1 <= at[i].version < MAX_VERSION && forall id :: id in issued ==> Refers(at, id)
    ensures MakeId(i, at[i].version + 1) !in issued
  {
    UnpackPacked(i, at[i].version + 1);
  }

  lemma StillNamed(at: seq<Node>, at': seq<Node>, members: set<int>, free: seq<int>, cur: map<Ptr, Id>, issued: set<Id>, i: int)
    requires Registered(at, members, free, cur, issued) && i in members && Retired(at, at', i)
    ensures forall p :: p in cur && p != at[i].maskedPtr ==> Names(at', p, cur[p])
    ensures forall j :: j in members && j != i ==> at'[j].maskedPtr in cur - {at[i].maskedPtr} && cur[at'[j].maskedPtr] == IdAt(at', j)
  {
    forall p | p in cur && p != at[i].maskedPtr ensures Names(at', p, cur[p]) {
      assert Names(at, p, cur[p]);
    }
    UnpackPacked(i, at[i].version);
    forall j | j in members && j != i ensures at'[j].maskedPtr != at[i].maskedPtr {
      UnpackPacked(j, at[j].version);
    }
  }

  lemma FreeAfter(at: seq<Node>, at': seq<Node>, members: set<int>, free: seq<int>, cur: map<Ptr, Id>, issued: set<Id>, i: int)
    requires Registered(at, members, free, cur, issued) && i in members && Retired(at, at', i)
    ensures forall k :: 0 <= k < |free| ==> free[k] != i && at'[free[k]].maskedPtr == 0 && IdAt(at', free[k]) !in issued
    ensures at[i].version < MAX_VERSION ==> IdAt(at', i) !in issued
    ensures Distinct(free + [i])
  {
    if at[i].version < MAX_VERSION { NextIdFresh(at, issued, i); }
    forall k | 0 <= k < |free| ensures free[k] != i && at'[free[k]].maskedPtr == 0 && IdAt(at', free[k]) !in issued {
    }
  }

  /** The pointer of node `i` is given up: the node waits for reuse under its next version, if it has one. */
  lemma Unregister(at: seq<Node>, at': seq<Node>, members: set<int>, free: seq<int>, cur: map<Ptr, Id>, issued: set<Id>, i: int)
    requires Registered(at, members, free, cur, issued) && i in members && Retired(at, at', i)
    ensures Registered(at', members - {i}, if at[i].version == MAX_VERSION then free else free + [i], cur - {at[i].maskedPtr}, issued)
  {
    StillNamed(at, at', members, free, cur, issued, i);
    FreeAfter(at, at', members, free, cur, issued, i);
    assert forall id :: id in issued ==> Refers(at', id);
  }

  /** The nodes store the acyclic graph `e` with ranks in topological order, and carry no marks. */
  ghost predicate Ordered(at: seq<Node>, e: Edges)
    reads Neighbours(at)
  {
    Stores(at, e) && Marked(at, []) && Increasing(e, Ranks(at)) && Permutation(Ranks(at))
  }

  /** The node records agree in everything the ordering is about. */
  ghost predicate SameShape(a: seq<Node>, b: seq<Node>) {
    |a| == |b| && forall i :: 0 <= i < |a| ==> a[i].rank == b[i].rank && a[i].visited == b[i].visited && a[i].ins == b[i].ins && a[i].outs == b[i].outs
  }

  lemma ShapeKeepsOrder(a: seq<Node>, b: seq<Node>, e: Edges)
    requires Ordered(a, e) && SameShape(a, b)
    ensures Ordered(b, e) && Neighbours(b) == Neighbours(a)
  {
    hide Increasing, Permutation, NodeSet.Valid;
    assert Ranks(a) == Ranks(b);
  }

  lemma OutsideEdgeless(e: Edges, n: nat)
    requires Within(e, n)
    ensures Successors(e, n) == {} && Predecessors(e, n) == {}
  {
    assert forall j: int :: ((n, j) in e ==> (n, j).0 < n) && ((j, n) in e ==> (j, n).1 < n);
  }

  lemma AppendKeepsRanks(at: seq<Node>, e: Edges, n: Node)
    requires Increasing(e, Ranks(at)) && Permutation(Ranks(at)) && n.rank == |at|
    ensures Increasing(e, Ranks(at + [n])) && Permutation(Ranks(at + [n]))
  {
    assert Ranks(at + [n]) == Ranks(at) + [|at|];
  }

  lemma AppendNeighbours(at: seq<Node>, n: Node)
    ensures Neighbours(at + [n]) == Neighbours(at) + {n.ins, n.outs}
  {
    var at' := at + [n];
    assert at'[|at|] == n;
    forall s | s in Neighbours(at) ensures s in Neighbours(at') {
      var i :| 0 <= i < |at| && (at[i].ins == s || at[i].outs == s);
      assert at'[i] == at[i];
    }
    forall s | s in Neighbours(at') ensures s in Neighbours(at) + {n.ins, n.outs} {
      var i :| 0 <= i < |at'| && (at'[i].ins == s || at'[i].outs == s);
      assert i < |at| ==> at'[i] == at[i];
    }
  }

  /** A new node without edges takes the next free rank. */
  lemma AppendKeepsOrder(at: seq<Node>, e: Edges, n: Node)
    requires Ordered(at, e) && n.rank == |at| && !n.visited
    requires n.ins.tag == 2 * |at| && n.outs.tag == 2 * |at| + 1
    requires n.ins.Valid() && n.ins.elems == {} && n.outs.Valid() && n.outs.elems == {}
    ensures Ordered(at + [n], e)
    ensures Neighbours(at + [n]) == Neighbours(at) + {n.ins, n.outs}
  {
    hide Increasing, Permutation, NodeSet.Valid;
    AppendNeighbours(at, n);
    AppendKeepsRanks(at, e, n);
    OutsideEdgeless(e, |at|);
  }

  lemma DetachKeepsOrder(at: seq<Node>, e: Edges, i: int)
    requires Increasing(e, Ranks(at))
    ensures Increasing(Detached(e, i), Ranks(at)) && Within(Detached(e, i), |at|)
    ensures Successors(Detached(e, i), i) == {} && Predecessors(Detached(e, i), i) == {}
    ensures forall j :: Successors(Detached(e, i), j) <= Successors(e, j) && Predecessors(Detached(e, i), j) <= Predecessors(e, j)
  {
    forall p | p in Detached(e, i) ensures 0 <= p.0 < |at| && 0 <= p.1 < |at| {
      assert (p.0, p.1) in e;
    }
  }

  lemma MemberRange(at: seq<Node>, members: set<int>, free: seq<int>, cur: map<Ptr, Id>, issued: set<Id>)
    requires Registered(at, members, free, cur, issued)
    ensures forall c :: c in members ==> 0 <= c < |at| && 1 <= at[c].version <= MAX_VERSION
  {
  }

  lemma FreeOfEdgesPrefix(e: Edges, free: seq<int>, i: int)
    requires FreeOfEdges(e, free + [i])
    ensures FreeOfEdges(e, free)
  {
  }

  lemma NotYetNamed(at: seq<Node>, members: set<int>, free: seq<int>, cur: map<Ptr, Id>, issued: set<Id>, p: Ptr)
    requires Registered(at, members, free, cur, issued) && p !in cur
    ensures forall c :: c in members ==> 0 <= c < |at| && at[c].maskedPtr != p
    ensures |at| !in members && Distinct(free) && forall j :: j in free ==> 0 <= j < |at|
  {
  }

  lemma IdsKept(at: seq<Node>, at': seq<Node>)
    requires |at| <= |at'| && forall j :: 0 <= j < |at| ==> at'[j].version == at[j].version
    ensures Ids(at) <= Ids(at')
  {
  }

  /** The node to be reused. */
  lemma LastFree(at: seq<Node>, members: set<int>, rest: seq<int>, r: int, cur: map<Ptr, Id>, issued: set<Id>)
    requires Registered(at, members, rest + [r], cur, issued)
    ensures 0 <= r < |at| <= MAX_NODES && r !in members && at[r].maskedPtr == 0 && 1 <= at[r].version <= MAX_VERSION && IdAt(at, r) !in issued
    ensures Distinct(rest) && forall j :: j in rest ==> j in rest + [r] && j != r
  {
    var free := rest + [r];
    assert free[|rest|] == r;
    forall k | 0 <= k < |rest| ensures rest[k] == free[k] && rest[k] != r {
    }
  }

  lemma NobodyNamed(at: seq<Node>, members: set<int>, free: seq<int>, cur: map<Ptr, Id>, issued: set<Id>, p: Ptr)
    requires Registered(at, members, free, cur, issued) && forall c :: c in members ==> at[c].maskedPtr != p
    ensures p !in cur && cur - {p} == cur
  {
    assert p in cur ==> Names(at, p, cur[p]);
  }

  lemma SoleName(at: seq<Node>, members: set<int>, free: seq<int>, cur: map<Ptr, Id>, issued: set<Id>, i: int)
    requires Registered(at, members, free, cur, issued) && i in members
    ensures 0 <= i < |at| && at[i].maskedPtr in cur && cur[at[i].maskedPtr] == IdAt(at, i) && NodeIndex(IdAt(at, i)) == i
  {
    UnpackPacked(i, at[i].version);
  }

  lemma HasNeighbours(at: seq<Node>, i: int)
    requires 0 <= i < |at|
    ensures at[i].ins in Neighbours(at) && at[i].outs in Neighbours(at)
  {
  }

  lemma NeighboursAdded(at: seq<Node>, n: Node, at': seq<Node>)
    requires Neighbours(at') == Neighbours(at + [n]) == Neighbours(at) + {n.ins, n.outs}
    ensures forall s :: s in Neighbours(at') - Neighbours(at) ==> s == n.ins || s == n.outs
  {
  }

  lemma LinksKeepNeighbours(a: seq<Node>, b: seq<Node>)
    requires OnlyLinksDiffer(a, b)
    ensures Neighbours(a) == Neighbours(b)
  {
  }

  lemma DetachKeepsFree(e: Edges, free: seq<int>, i: int)
    requires FreeOfEdges(e, free)
    ensures FreeOfEdges(Detached(e, i), free + [i])
  {
  }

  /** The version an id was issued for is over. */
  ghost predicate Expired(at: seq<Node>, id: Id) {
    var i := NodeIndex(id);
    0 <= i < |at| && at[i].version != NodeVersion(id)
  }

  lemma VersionRange(at: seq<Node>, members: set<int>, free: seq<int>, cur: map<Ptr, Id>, issued: set<Id>)
    requires Registered(at, members, free, cur, issued)
    ensures |at| <= MAX_NODES && forall j :: 0 <= j < |at| ==> 1 <= at[j].version <= MAX_VERSION
  {
  }

  lemma AllRefer(at: seq<Node>, members: set<int>, free: seq<int>, cur: map<Ptr, Id>, issued: set<Id>)
    requires Registered(at, members, free, cur, issued)
    ensures forall id :: id in issued ==> Refers(at, id)
  {
  }

  lemma NotWaiting(at: seq<Node>, members: set<int>, free: seq<int>, cur: map<Ptr, Id>, issued: set<Id>, i: int)
    requires Registered(at, members, free, cur, issued) && 0 <= i < |at| && IdAt(at, i) in issued
    ensures i !in free
  {
  }

  lemma FreeAfterEdge(e: Edges, free: seq<int>, x: int, y: int)
    requires FreeOfEdges(e, free) && x !in free && y !in free
    ensures FreeOfEdges(e + {(x, y)}, free)
  {
    AddEdge(e, x, y);
  }

  /** An edge that is already there closes no cycle. */
  lemma EdgePresent(e: Edges, r: seq<int>, x: int, y: int)
    requires Increasing(e, r) && (x, y) in e
    ensures e + {(x, y)} == e && !Reach(e, y, x)
  {
    IncreasingAcyclic(e, r);
  }

  /** Nor does one that agrees with the ranks. */
  lemma EdgeAgrees(e: Edges, r: seq<int>, x: int, y: int)
    requires Increasing(e, r) && Permutation(r) && 0 <= x < |r| && 0 <= y < |r| && x != y && r[x] <= r[y]
    ensures Increasing(e + {(x, y)}, r) && !Reach(e, y, x)
  {
    if Reach(e, y, x) { IncreasingReach(e, r, y, x); }
  }

  lemma SameSnapshot(a: seq<Node>, b: seq<Node>)
    requires OnlyRanksDiffer(a, b)
    ensures Links(b) == Links(a) && Ptrs(b) == Ptrs(a)
  {
  }

  lemma RanksKeepRest(a: seq<Node>, b: seq<Node>, e: Edges, members: set<int>, free: seq<int>, cur: map<Ptr, Id>, issued: set<Id>)
    requires Stores(a, e) && Marked(a, []) && OnlyRanksDiffer(a, b) && Registered(a, members, free, cur, issued)
    ensures Stores(b, e) && Marked(b, []) && Registered(b, members, free, cur, issued)
    ensures Neighbours(b) == Neighbours(a) && forall c :: c in members ==> 0 <= c < |a| && (b[c].maskedPtr == a[c].maskedPtr && b[c].nextHash == a[c].nextHash)
  {
    hide Registered;
    RegistryRanks(a, b, members, free, cur, issued);
    MemberRange(a, members, free, cur, issued);
  }

  lemma RegistryRanks(a: seq<Node>, b: seq<Node>, members: set<int>, free: seq<int>, cur: map<Ptr, Id>, issued: set<Id>)
    requires OnlyRanksDiffer(a, b) && Registered(a, members, free, cur, issued)
    ensures Registered(b, members, free, cur, issued)
  {
    assert forall i :: 0 <= i < |a| ==> IdAt(b, i) == IdAt(a, i);
    assert forall id :: id in issued ==> Refers(a, id) && Refers(b, id);
    assert forall p :: p in cur ==> Names(a, p, cur[p]) && Names(b, p, cur[p]);
  }

  /** The graph over present ids is unaffected by nodes that come later. */
  lemma ViewGrows(at: seq<Node>, at': seq<Node>, e: Edges)
    requires Within(e, |at|) && Ids(at) <= Ids(at')
    ensures Rename(e, Ids(at)) == Rename(e, Ids(at'))
  {
    assert forall p :: p in e ==> Ids(at')[p.0] == Ids(at)[p.0] && Ids(at')[p.1] == Ids(at)[p.1];
  }

  /** Removing a node removes the edges at its id, whatever id it has afterwards. */
  lemma ViewDetached(at: seq<Node>, at': seq<Node>, e: Edges, i: int)
    requires Within(e, |at|) && |at'| == |at| <= MAX_NODES && 0 <= i < |at| && forall j :: 0 <= j < |at| ==> 1 <= at[j].version <= MAX_VERSION
    requires forall j :: 0 <= j < |at| && j != i ==> IdAt(at', j) == IdAt(at, j)
    ensures Within(Detached(e, i), |at|)
    ensures Rename(Detached(e, i), Ids(at')) == Detached(Rename(e, Ids(at)), IdAt(at, i))
  {
    IdsInjective(at);
    var f, f' := Ids(at), Ids(at');
    forall p | p in Rename(Detached(e, i), f') ensures p in Rename(e, f) && p.0 != f[i] && p.1 != f[i] {
      var q :| q in Detached(e, i) && p == (f'[q.0], f'[q.1]);
      assert q in e && p == (f[q.0], f[q.1]);
    }
    forall p | p in Rename(e, f) && p.0 != f[i] && p.1 != f[i] ensures p in Rename(Detached(e, i), f') {
      var q :| q in e && p == (f[q.0], f[q.1]);
      assert q in Detached(e, i) && p == (f'[q.0], f'[q.1]);
    }
  }

  /** The outcome of an insertion, seen over ids. */
  lemma ViewInserted(at: seq<Node>, at': seq<Node>, e: Edges, x: int, y: int)
    requires Within(e, |at|) && |at| <= MAX_NODES && 0 <= x < |at| && 0 <= y < |at| && OnlyRanksDiffer(at, at')
    requires forall j :: 0 <= j < |at| ==> 1 <= at[j].version <= MAX_VERSION
    ensures Ids(at') == Ids(at) && Within(e + {(x, y)}, |at|)
    ensures Rename(e + {(x, y)}, Ids(at)) == Rename(e, Ids(at)) + {(IdAt(at, x), IdAt(at, y))}
    ensures Reach(Rename(e, Ids(at)), IdAt(at, y), IdAt(at, x)) <==> Reach(e, y, x)
    ensures IdAt(at, x) == IdAt(at, y) <==> x == y
  {
    IdsInjective(at);
    var f := Ids(at);
    assert Ids(at') == f;
    RenameReach(e, f, y, x);
    forall p | p in Rename(e, f) ensures p in Rename(e + {(x, y)}, f) {
      var q :| q in e && p == (f[q.0], f[q.1]);
      assert q in e + {(x, y)};
    }
    assert (x, y) in e + {(x, y)} && (f[(x, y).0], f[(x, y).1]) in Rename(e + {(x, y)}, f);
  }

  lemma FewerEdges(e: Edges, at: seq<Node>, free: seq<int>, x: int, y: int)
    requires Increasing(e, Ranks(at)) && FreeOfEdges(e, free)
    ensures Increasing(e - {(x, y)}, Ranks(at)) && FreeOfEdges(e - {(x, y)}, free)
  {
    forall i | i in free ensures Successors(e - {(x, y)}, i) == {} && Predecessors(e - {(x, y)}, i) == {} {
      assert Successors(e - {(x, y)}, i) <= Successors(e, i) && Predecessors(e - {(x, y)}, i) <= Predecessors(e, i);
    }
  }

  lemma ViewRemoved(at: seq<Node>, e: Edges, x: int, y: int)
    requires Within(e, |at|) && |at| <= MAX_NODES && 0 <= x < |at| && 0 <= y < |at|
    requires forall j :: 0 <= j < |at| ==> 1 <= at[j].version <= MAX_VERSION
    ensures Within(e - {(x, y)}, |at|)
    ensures Rename(e - {(x, y)}, Ids(at)) == Rename(e, Ids(at)) - {(IdAt(at, x), IdAt(at, y))}
  {
    IdsInjective(at);
    var f := Ids(at);
    forall p | p in Rename(e, f) && p != (f[x], f[y]) ensures p in Rename(e - {(x, y)}, f) {
      var q :| q in e && p == (f[q.0], f[q.1]);
      assert q in e - {(x, y)};
    }
    forall p | p in Rename(e - {(x, y)}, f) ensures p in Rename(e, f) && p != (f[x], f[y]) {
      var q :| q in e - {(x, y)} && p == (f[q.0], f[q.1]);
      assert q in e;
    }
  }

  /** What an insertion of the edge between two issued ids does: nothing if one of them has expired; otherwise it
      refuses self edges and edges that would close a cycle and leaves everything as it was, or it adds the edge. */
  ghost predicate Inserted(at: seq<Node>, at': seq<Node>, before: Edges, after: Edges, idx: Id, idy: Id, ok: bool) {
    if Expired(at, idx) || Expired(at, idy) then ok && after == before && at' == at
    else && ok == (idx != idy && !Reach(before, idy, idx))
         && after == (if ok then before + {(idx, idy)} else before)
         && (if ok then RanksKept(at, at', NodeIndex(idx), NodeIndex(idy)) else at' == at)
  }

  lemma InsertedNothing(at: seq<Node>, e: Edges, idx: Id, idy: Id)
    requires Expired(at, idx) || Expired(at, idy)
    ensures Inserted(at, at, e, e, idx, idy, true)
  {
  }

  lemma InsertedEdge(at: seq<Node>, at': seq<Node>, e: Edges, e': Edges, x: int, y: int, ok: bool)
    requires Within(e, |at|) && |at| <= MAX_NODES && 0 <= x < |at| && 0 <= y < |at| && OnlyRanksDiffer(at, at')
    requires forall j :: 0 <= j < |at| ==> 1 <= at[j].version <= MAX_VERSION
    requires ok == (x != y && !Reach(e, y, x)) && e' == (if ok then e + {(x, y)} else e)
    requires if ok then RanksKept(at, at', x, y) else at' == at
    ensures Within(e', |at|) && Inserted(at, at', Rename(e, Ids(at)), Rename(e', Ids(at')), IdAt(at, x), IdAt(at, y), ok)
  {
    hide Reach;
    IdsInjective(at);
    ViewInserted(at, at', e, x, y);
  }

  /** The ids of the nodes of a path. */
  ghost function IdPath(at: seq<Node>, p: seq<int>): (ids: seq<Id>)
    ensures |ids| == |p| && forall k :: 0 <= k < |p| && 0 <= p[k] < |at| ==> ids[k] == IdAt(at, p[k])
  {
    seq(|p|, k requires 0 <= k < |p| => if 0 <= p[k] < |at| then IdAt(at, p[k]) else 0)
  }

  lemma ViewReach(at: seq<Node>, e: Edges, x: int, y: int)
    requires Within(e, |at|) && |at| <= MAX_NODES && 0 <= x < |at| && 0 <= y < |at|
    requires forall j :: 0 <= j < |at| ==> 1 <= at[j].version <= MAX_VERSION
    ensures Reach(Rename(e, Ids(at)), IdAt(at, x), IdAt(at, y)) <==> Reach(e, x, y)
  {
    hide Reach;
    IdsInjective(at);
    RenameReach(e, Ids(at), x, y);
  }

  lemma PathWithin(e: Edges, n: nat, p: seq<int>, x: int, y: int)
    requires Within(e, n) && Joins(e, p, x, y) && 0 <= x < n
    ensures forall k :: 0 <= k < |p| ==> 0 <= p[k] < n
  {
    forall k | 0 <= k < |p| ensures 0 <= p[k] < n {
      if k > 0 {
        var j := k - 1;
        assert (p[j], p[k]) in e;
      }
    }
  }

  /** A path between nodes is a path between their ids, and visits no id twice if it visits no node twice. */
  lemma ViewPath(at: seq<Node>, e: Edges, p: seq<int>, x: int, y: int)
    requires Within(e, |at|) && |at| <= MAX_NODES && 0 <= x < |at| && 0 <= y < |at| && Joins(e, p, x, y)
    requires forall j :: 0 <= j < |at| ==> 1 <= at[j].version <= MAX_VERSION
    requires Distinct(p)
    ensures Joins(Rename(e, Ids(at)), IdPath(at, p), IdAt(at, x), IdAt(at, y)) && Distinct(IdPath(at, p))
  {
    var f, q := Ids(at), IdPath(at, p);
    IdsInjective(at);
    PathWithin(e, |at|, p, x, y);
    forall i, j | 0 <= i && j == i + 1 && j < |p| ensures (q[i], q[j]) in Rename(e, f) {
      assert (p[i], p[j]) in e;
      RenameEdge(e, f, p[i], p[j]);
    }
  }

  lemma ViewRecorded(at: seq<Node>, e: Edges, p: seq<int>, limit: int, buf: seq<Id>, x: int, y: int)
    requires Within(e, |at|) && 0 <= x < |at| && Joins(e, p, x, y) && PathSearch.Recorded(at, p, limit, buf) && limit <= |buf|
    ensures forall k :: 0 <= k < |p| && k < limit ==> buf[k] == IdPath(at, p)[k]
  {
    PathWithin(e, |at|, p, x, y);
  }

  /** Do all edges of node `x` go up in rank? */
  method RanksAscend(at: seq<Node>, x: int, ghost e: Edges) returns (ok: bool)
    requires Stores(at, e) && 0 <= x < |at|
    ensures ok <==> AscendsFrom(at, e, x)
  {
    var outs, cursor := at[x].outs, 0;
    while true
      invariant cursor <= |outs.table|
      invariant forall w :: w in outs.Produced(cursor) ==> (x, w) in e && at[x].rank < at[w].rank
      decreases |outs.table| - cursor
    {
      var more, cursor', w := outs.Next(cursor);
      if !more { return true; }
      cursor := cursor';
      assert (x, w) in e;
      if at[x].rank >= at[w].rank { return false; }
    }
  }

  ghost predicate AscendsFrom(at: seq<Node>, e: Edges, x: int)
    requires Within(e, |at|) && 0 <= x < |at|
  {
    forall w :: (x, w) in e ==> at[x].rank < at[w].rank
  }

  /** The first `n` nodes carry no marks and have distinct ranks, and their edges go up in rank. */
  ghost predicate InOrder(at: seq<Node>, e: Edges, n: nat)
    requires Within(e, |at|) && n <= |at|
  {
    && (forall i :: 0 <= i < n ==> !at[i].visited && AscendsFrom(at, e, i))
    && (forall i, j :: 0 <= i < j < n ==> at[i].rank != at[j].rank)
  }

  /** For the whole graph this is all that the order is about, except that ranks are below the number of nodes. */
  lemma InOrderIs(at: seq<Node>, e: Edges)
    requires Within(e, |at|)
    ensures InOrder(at, e, |at|) <==> Marked(at, []) && Distinct(Ranks(at)) && Increasing(e, Ranks(at))
  {
    var r := Ranks(at);
    if InOrder(at, e, |at|) {
      forall a, b | (a, b) in e ensures 0 <= a < |r| && 0 <= b < |r| && r[a] < r[b] {
        assert (a, b).0 == a && (a, b).1 == b;
        assert AscendsFrom(at, e, a);
      }
      assert forall i, j :: 0 <= i < |r| && 0 <= j < |r| && r[i] == r[j] ==> i == j;
    }
    if Marked(at, []) && Distinct(r) && Increasing(e, r) {
      forall i | 0 <= i < |at| ensures !at[i].visited && AscendsFrom(at, e, i) {
      }
      assert forall i, j :: 0 <= i < j < |at| ==> r[i] != r[j];
    }
  }

  lemma FoundItself(at: seq<Node>, members: set<int>, free: seq<int>, cur: map<Ptr, Id>, issued: set<Id>, x: int, i: int)
    requires Registered(at, members, free, cur, issued) && 0 <= x < |at| && at[x].maskedPtr != 0
    requires if i == -1 then forall c :: c in members ==> at[c].maskedPtr != at[x].maskedPtr else i in members && at[i].maskedPtr == at[x].maskedPtr
    ensures i == x
  {
    assert x in members;
    SoleName(at, members, free, cur, issued, x);
    SoleName(at, members, free, cur, issued, i);
  }

  ghost predicate RanksOf(at: seq<Node>, n: nat, s: set<int>)
    requires n <= |at|
  {
    forall k :: k in s <==> exists i :: 0 <= i < n && at[i].rank == k
  }

  lemma InOrderNone(at: seq<Node>, e: Edges, s: set<int>)
    requires Within(e, |at|) && s == {}
    ensures InOrder(at, e, 0) && RanksOf(at, 0, s)
  {
  }

  lemma OutOfOrder(at: seq<Node>, e: Edges, n: nat)
    requires Within(e, |at|) && n <= |at| && !InOrder(at, e, n)
    ensures !InOrder(at, e, |at|)
  {
  }

  /** One more node is in order if it is not marked, has a new rank, and its edges go up. */
  lemma InOrderNext(at: seq<Node>, e: Edges, x: nat, s: set<int>)
    requires Within(e, |at|) && x < |at| && InOrder(at, e, x) && RanksOf(at, x, s)
    ensures InOrder(at, e, x + 1) <==> !at[x].visited && at[x].rank !in s && AscendsFrom(at, e, x)
    ensures RanksOf(at, x + 1, s + {at[x].rank})
  {
    hide AscendsFrom;
    if at[x].rank in s {
      var i :| 0 <= i < x && at[i].rank == at[x].rank;
      assert !InOrder(at, e, x + 1);
    }
    forall k | k in s + {at[x].rank} ensures exists i :: 0 <= i < x + 1 && at[i].rank == k {
      if k == at[x].rank { assert at[x].rank == k; }
    }
  }

  method NewNode(n: nat, ptr: Ptr) returns (node: Node)
    ensures node.rank == n && node.version == 1 && !node.visited && node.maskedPtr == ptr
    ensures fresh(node.ins) && node.ins.tag == 2 * n && node.ins.Valid() && node.ins.elems == {}
    ensures fresh(node.outs) && node.outs.tag == 2 * n + 1 && node.outs.Valid() && node.outs.elems == {}
  {
    var ins := new NodeSet(2 * n);
    var outs := new NodeSet(2 * n + 1);
    node := Node(n, 1, 0, false, ptr, ins, outs);
  }

  /** The id of a pointer was issued, and no other pointer has it. */
  lemma SpentName(at: seq<Node>, members: set<int>, free: seq<int>, cur: map<Ptr, Id>, issued: set<Id>, p: Ptr)
    requires Registered(at, members, free, cur, issued) && p in cur
    ensures cur[p] in issued && forall q :: q in cur && q != p ==> cur[q] != cur[p]
  {
    assert Names(at, p, cur[p]);
    assert forall q :: q in cur ==> Names(at, q, cur[q]);
  }

  lemma LiveNotExpired(at: seq<Node>, members: set<int>, free: seq<int>, cur: map<Ptr, Id>, issued: set<Id>, id: Id)
    requires Registered(at, members, free, cur, issued) && id in cur.Values
    ensures id in issued && !Expired(at, id)
  {
    var p :| p in cur && cur[p] == id;
    assert Names(at, p, id);
    UnpackPacked(NodeIndex(id), at[NodeIndex(id)].version);
  }

  /** What an insertion between two live ids comes to: it is refused for a self edge or an edge that would close a cycle and
      changes nothing then; otherwise the edge is added and no node ranked outside the range between its ends moves. */
  lemma InsertedLive(at: seq<Node>, at': seq<Node>, before: Edges, after: Edges, idx: Id, idy: Id, ok: bool)
    requires Inserted(at, at', before, after, idx, idy, ok) && !Expired(at, idx) && !Expired(at, idy)
    ensures ok <==> idx != idy && !Reach(before, idy, idx)
    ensures after == if ok then before + {(idx, idy)} else before
    ensures !ok ==> at' == at
    ensures |at'| == |at| && forall v :: 0 <= v < |at| && at'[v].rank != at[v].rank ==>
              0 <= NodeIndex(idx) < |at| && 0 <= NodeIndex(idy) < |at| && at[NodeIndex(idy)].rank <= at[v].rank <= at[NodeIndex(idx)].rank
  {
    hide Reach;
  }

  class GraphCycles {
    const nodes: NodeVec
    var freeNodes: seq<int>
    const ptrmap: PointerMap

    /** The edges, between node indices. */
    ghost var edges: Edges
    /** The ids of all pointers in the graph. */
    ghost var cur: map<Ptr, Id>
    /** All ids ever issued. */
    ghost var issued: set<Id>

    ghost predicate Valid()
      reads this, nodes, ptrmap, ptrmap.nodes, ptrmap.table, Neighbours(nodes.at)
    {
      && Ordered(nodes.at, edges)
      && ptrmap.nodes == nodes && ptrmap.Valid()
      && Registered(nodes.at, ptrmap.members, freeNodes, cur, issued) && FreeOfEdges(edges, freeNodes)
    }

    /** The edges, between ids. */
    ghost function IdEdges(): Edges
      reads this, nodes
    {
      if Within(edges, |nodes.at|) then Rename(edges, Ids(nodes.at)) else {}
    }

    constructor ()
      ensures Valid() && IdEdges() == {} && cur == map[] && issued == {}
      ensures fresh(nodes) && fresh(ptrmap) && fresh(ptrmap.table) && nodes.at == []
    {
      var vec := new NodeVec();
      nodes := vec;
      freeNodes := [];
      ptrmap := new PointerMap(vec);
      edges, cur, issued := {}, map[], {};
    }

    /** The index of the node an id refers to, unless the id has expired. */
    method FindNode(id: Id) returns (i: int)
      requires Valid() && id in issued
      ensures if nodes.at[NodeIndex(id)].version == NodeVersion(id) then i == NodeIndex(id) && id == IdAt(nodes.at, i) else i == -1
    {
      assert Refers(nodes.at, id);
      var n := nodes.at[NodeIndex(id)];
      i := if n.version == NodeVersion(id) then NodeIndex(id) else -1;
    }

    /** The pointer whose id this is, or null when it is nobody's id any more. */
    method Ptr(id: Id) returns (p: Ptr)
      requires Valid() && id in issued
      ensures p != 0 ==> p in cur && cur[p] == id
      ensures p == 0 ==> id !in cur.Values
    {
      assert Refers(nodes.at, id);
      var i := FindNode(id);
      p := if i == -1 then 0 else nodes.at[i].maskedPtr;
      if p != 0 {
        assert i in ptrmap.members;
      } else if id in cur.Values {
        var q :| q in cur && cur[q] == id;
        assert Names(nodes.at, q, id);
        UnpackPacked(NodeIndex(id), nodes.at[NodeIndex(id)].version);
      }
    }

    /** The id of `ptr`, which gets an unused one when it has none. */
    method GetId(ptr: Ptr) returns (id: Id)
      requires Valid() && ptr != 0
      requires ptr in cur || freeNodes != [] || |nodes.at| < MAX_NODES
      modifies this, nodes, ptrmap, ptrmap.table
      ensures Valid() && edges == old(edges) && fresh(Neighbours(nodes.at) - old(Neighbours(nodes.at)))
      ensures if ptr in old(cur) then id == old(cur)[ptr] && cur == old(cur) && issued == old(issued)
              else id !in old(issued) && id != 0 && cur == old(cur)[ptr := id] && issued == old(issued) + {id}
      ensures IdEdges() == old(IdEdges())
    {
      hide Registered, FreeOfEdges, IsTable, Permutation, Increasing, NodeSet.Valid;
      var i := ptrmap.Find(ptr);
      if i != -1 {
        SoleName(nodes.at, ptrmap.members, freeNodes, cur, issued, i);
        return MakeId(i, nodes.at[i].version);
      }
      NobodyNamed(nodes.at, ptrmap.members, freeNodes, cur, issued, ptr);
      id := NewId(ptr);
    }

    /** A new pointer gets a free node, or a new one if none is free. */
    method NewId(ptr: Ptr) returns (id: Id)
      requires Valid() && ptr != 0 && ptr !in cur && (freeNodes != [] || |nodes.at| < MAX_NODES)
      modifies this, nodes, ptrmap, ptrmap.table
      ensures Valid() && edges == old(edges) && fresh(Neighbours(nodes.at) - old(Neighbours(nodes.at)))
      ensures id !in old(issued) && id != 0 && cur == old(cur)[ptr := id] && issued == old(issued) + {id}
      ensures IdEdges() == old(IdEdges())
      ensures |nodes.at| == old(|nodes.at|) + if old(freeNodes) == [] then 1 else 0
    {
      hide Registered, FreeOfEdges, IsTable, Permutation, Increasing, Neighbours, Rename, NodeSet.Valid;
      ghost var at := nodes.at;
      if freeNodes == [] {
        id := AppendNode(ptr);
      } else {
        id := ReuseNode(ptr);
      }
      ViewGrows(at, nodes.at, edges);
    }

    method AppendNode(ptr: Ptr) returns (id: Id)
      requires Valid() && ptr != 0 && ptr !in cur && |nodes.at| < MAX_NODES
      modifies this, nodes, ptrmap, ptrmap.table
      ensures Valid() && edges == old(edges) && fresh(Neighbours(nodes.at) - old(Neighbours(nodes.at)))
      ensures id !in old(issued) && id != 0 && cur == old(cur)[ptr := id] && issued == old(issued) + {id}
      ensures Ids(old(nodes.at)) <= Ids(nodes.at) && |nodes.at| == old(|nodes.at|) + 1
    {
      hide Registered, FreeOfEdges, IsTable, Increasing, Permutation, Neighbours, NodeSet.Valid;
      ghost var members := ptrmap.members;
      var at, n := nodes.at, |nodes.at|;
      var node := NewNode(n, ptr);
      NotYetNamed(at, members, freeNodes, cur, issued, ptr);
      ptrmap.Adopt(at + [node], ptr, n);
      AppendKeepsOrder(at, edges, node);
      ShapeKeepsOrder(at + [node], nodes.at, edges);
      Register(at, nodes.at, members, freeNodes, freeNodes, cur, issued, ptr, n);
      IdsKept(at, nodes.at);
      NeighboursAdded(at, node, nodes.at);
      id := MakeId(n, 1);
      Commit(freeNodes, edges, cur[ptr := id], issued + {id});
    }

    method ReuseNode(ptr: Ptr) returns (id: Id)
      requires Valid() && ptr != 0 && ptr !in cur && freeNodes != []
      modifies this, nodes, ptrmap, ptrmap.table
      ensures Valid() && edges == old(edges) && fresh(Neighbours(nodes.at) - old(Neighbours(nodes.at)))
      ensures id !in old(issued) && id != 0 && cur == old(cur)[ptr := id] && issued == old(issued) + {id}
      ensures Ids(old(nodes.at)) <= Ids(nodes.at) && |nodes.at| == old(|nodes.at|)
    {
      hide Registered, FreeOfEdges, IsTable, Increasing, Permutation, Neighbours, NodeSet.Valid;
      ghost var members := ptrmap.members;
      var at, r, rest := nodes.at, freeNodes[|freeNodes| - 1], freeNodes[..|freeNodes| - 1];
      assert freeNodes == rest + [r];
      NotYetNamed(at, members, freeNodes, cur, issued, ptr);
      LastFree(at, members, rest, r, cur, issued);
      var at' := at[r := at[r].(maskedPtr := ptr)];
      ptrmap.Adopt(at', ptr, r);
      ShapeKeepsOrder(at, nodes.at, edges);
      Register(at, nodes.at, members, freeNodes, rest, cur, issued, ptr, r);
      FreeOfEdgesPrefix(edges, rest, r);
      IdsKept(at, nodes.at);
      id := MakeId(r, at[r].version);
      Commit(rest, edges, cur[ptr := id], issued + {id});
    }

    /** Takes `ptr` and every edge at its node out of the graph; its id is never valid again. */
    method RemoveNode(ptr: Ptr)
      requires Valid()
      modifies this, nodes, ptrmap, ptrmap.table, Neighbours(nodes.at)
      ensures Valid() && issued == old(issued) && cur == old(cur) - {ptr} && Neighbours(nodes.at) == old(Neighbours(nodes.at))
      ensures IdEdges() == if ptr in old(cur) then Detached(old(IdEdges()), old(cur)[ptr]) else old(IdEdges())
      ensures ptr in old(cur) ==> old(cur)[ptr] in issued && forall p :: p in cur ==> cur[p] != old(cur)[ptr]
      ensures forall a, b :: (a, b) in IdEdges() <==>
                (a, b) in old(IdEdges()) && (ptr in old(cur) ==> a != old(cur)[ptr] && b != old(cur)[ptr])
    {
      hide Registered, FreeOfEdges, IsTable, Increasing, Permutation, Neighbours, NodeSet.Valid;
      ghost var at0, members, freeNodes0, cur0 := nodes.at, ptrmap.members, freeNodes, cur;
      MemberRange(at0, members, freeNodes, cur, issued);
      VersionRange(at0, members, freeNodes, cur, issued);
      var i := ptrmap.Remove(ptr);
      if i == -1 {
        NobodyNamed(at0, members, freeNodes, cur, issued, ptr);
        return;
      }
      SoleName(at0, members, freeNodes, cur, issued, i);
      LinksKeepNeighbours(at0, nodes.at);
      ghost var e := edges;
      Detach(at0, members, i);
      ViewDetached(at0, nodes.at, e, i);
      SpentName(at0, members, freeNodes0, cur0, issued, ptr);
      DetachedEdges(Rename(e, Ids(at0)), cur0[ptr]);
    }

    /** Removes the edges of node `i`, which is off its chain, and retires it. */
    method Detach(ghost at0: seq<Node>, ghost members0: set<int>, i: int)
      requires ptrmap.nodes == nodes && ptrmap.Valid() && ptrmap.members == members0 - {i} && i in members0
      requires Registered(at0, members0, freeNodes, cur, issued) && OnlyLinksDiffer(at0, nodes.at)
      requires Ordered(at0, edges) && FreeOfEdges(edges, freeNodes)
      modifies this, nodes, Neighbours(nodes.at)
      ensures Valid() && edges == Detached(old(edges), i) && issued == old(issued) && cur == old(cur) - {at0[i].maskedPtr}
      ensures |nodes.at| == |at0| && Neighbours(nodes.at) == Neighbours(at0)
      ensures forall j :: 0 <= j < |at0| && j != i ==> IdAt(nodes.at, j) == IdAt(at0, j)
    {
      hide Registered, FreeOfEdges, IsTable, Permutation, Neighbours, NodeSet.Valid;
      MemberRange(at0, members0, freeNodes, cur, issued);
      ShapeKeepsOrder(at0, nodes.at, edges);
      DetachKeepsOrder(nodes.at, edges, i);
      DetachKeepsFree(edges, freeNodes, i);
      Isolate(nodes.at, i, edges);
      edges := Detached(edges, i);
      Retire(at0, members0, i);
    }

    /** Clears the pointer of node `i`, which is off its chain, and bumps its version unless exhausted. */
    method Retire(ghost at0: seq<Node>, ghost members0: set<int>, i: int)
      requires ptrmap.nodes == nodes && ptrmap.Valid() && ptrmap.members == members0 - {i} && i in members0
      requires Registered(at0, members0, freeNodes, cur, issued) && OnlyLinksDiffer(at0, nodes.at)
      requires Ordered(nodes.at, edges) && FreeOfEdges(edges, freeNodes + [i])
      modifies this, nodes
      ensures Valid() && edges == old(edges) && issued == old(issued) && cur == old(cur) - {at0[i].maskedPtr}
      ensures |nodes.at| == |at0| && Neighbours(nodes.at) == old(Neighbours(nodes.at))
      ensures forall j :: 0 <= j < |at0| && j != i ==> IdAt(nodes.at, j) == IdAt(at0, j)
      ensures i < |at0| && nodes.at[i].maskedPtr == 0
      ensures if at0[i].version == 0xFFFF_FFFF then nodes.at[i].version == at0[i].version && freeNodes == old(freeNodes)
              else nodes.at[i].version == at0[i].version + 1 && freeNodes == old(freeNodes) + [i]
    {
      hide Registered, FreeOfEdges, IsTable, Increasing, Permutation, Neighbours, NodeSet.Valid;
      MemberRange(at0, members0, freeNodes, cur, issued);
      var at := nodes.at;
      var exhausted := at[i].version == MAX_VERSION;
      var at' := at[i := at[i].(maskedPtr := 0, version := if exhausted then at[i].version else at[i].version + 1)];
      ptrmap.Update(at');
      ShapeKeepsOrder(at, at', edges);
      Unregister(at0, at', members0, freeNodes, cur, issued, i);
      FreeOfEdgesPrefix(edges, freeNodes, i);
      Commit(if exhausted then freeNodes else freeNodes + [i], edges, cur - {at0[i].maskedPtr}, issued);
    }

    /** Stores the new free list, together with the ghost record of what the graph now holds. */
    method Commit(freeNodes': seq<int>, ghost edges': Edges, ghost cur': map<Ptr, Id>, ghost issued': set<Id>)
      requires Ordered(nodes.at, edges') && ptrmap.nodes == nodes && ptrmap.Valid()
      requires Registered(nodes.at, ptrmap.members, freeNodes', cur', issued') && FreeOfEdges(edges', freeNodes')
      modifies this
      ensures Valid() && freeNodes == freeNodes' && edges == edges' && cur == cur' && issued == issued'
    {
      hide Registered, FreeOfEdges, IsTable, Permutation, Increasing, Neighbours, NodeSet.Valid;
      freeNodes, edges, cur, issued := freeNodes', edges', cur', issued';
    }

    /** Looks node `x` up by its pointer, if it has one; the pointer map finds the node itself. */
    method LookUp(x: int) returns (i: int)
      requires ptrmap.nodes == nodes && ptrmap.Valid() && 0 <= x < |nodes.at|
      requires Registered(nodes.at, ptrmap.members, freeNodes, cur, issued)
      ensures i == if nodes.at[x].maskedPtr != 0 then x else -1
    {
      hide Registered, IsTable;
      i := -1;
      if nodes.at[x].maskedPtr != 0 {
        i := ptrmap.Find(nodes.at[x].maskedPtr);
        FoundItself(nodes.at, ptrmap.members, freeNodes, cur, issued, x, i);
      }
    }

    /** The self-check: finds out whether the order is intact, and whether the pointer map finds every live node. */
    method CheckInvariants() returns (ok: bool)
      requires Stores(nodes.at, edges) && ptrmap.nodes == nodes && ptrmap.Valid()
      requires Registered(nodes.at, ptrmap.members, freeNodes, cur, issued) && forall i :: 0 <= i < |nodes.at| ==> nodes.at[i].rank >= 0
      ensures ok <==> Marked(nodes.at, []) && Distinct(Ranks(nodes.at)) && Increasing(edges, Ranks(nodes.at))
    {
      hide Registered, IsTable, Increasing, Distinct, Marked, InOrder, RanksOf, AscendsFrom, Neighbours, NodeSet.Valid;
      var at := nodes.at;
      InOrderIs(at, edges);
      var ranks := new NodeSet(0);
      InOrderNone(at, edges, ranks.elems);
      var x := 0;
      while x < |at|
        invariant 0 <= x <= |at| && nodes.at == at && ranks.Valid() && fresh(ranks) && Within(edges, |at|)
        invariant InOrder(at, edges, x) && RanksOf(at, x, ranks.elems)
        invariant Stores(at, edges) && ptrmap.Valid()
      {
        var i := LookUp(x);
        assert at[x].maskedPtr != 0 ==> i == x;
        InOrderNext(at, edges, x, ranks.elems);
        var ascend := RanksAscend(at, x, edges);
        var added := ranks.Insert(at[x].rank);
        if at[x].visited || !added || !ascend {
          OutOfOrder(at, edges, x + 1);
          return false;
        }
        x := x + 1;
      }
      ok := true;
    }

    /** Is there an edge between the nodes of two ids that are still valid? */
    method HasEdge(idx: Id, idy: Id) returns (r: bool)
      requires Valid() && idx in issued && idy in issued
      ensures r <==> !Expired(nodes.at, idx) && !Expired(nodes.at, idy) && (idx, idy) in IdEdges()
    {
      hide Registered, FreeOfEdges, IsTable, Permutation, Increasing, Neighbours, Rename, NodeSet.Valid;
      AllRefer(nodes.at, ptrmap.members, freeNodes, cur, issued);
      VersionRange(nodes.at, ptrmap.members, freeNodes, cur, issued);
      var x := FindNode(idx);
      var y := FindNode(idy);
      if x == -1 || y == -1 {
        return false;
      }
      IdsInjective(nodes.at);
      RenameEdge(edges, Ids(nodes.at), x, y);
      r := nodes.at[x].outs.Contains(y);
    }

    /** Takes an edge away; the ranks remain a topological order. */
    method RemoveEdge(idx: Id, idy: Id)
      requires Valid() && idx in issued && idy in issued
      modifies this`edges, Neighbours(nodes.at)
      ensures Valid()
      ensures IdEdges() == if Expired(nodes.at, idx) || Expired(nodes.at, idy) then old(IdEdges()) else old(IdEdges()) - {(idx, idy)}
    {
      hide Registered, FreeOfEdges, IsTable, Permutation, Increasing, Neighbours, Rename, NodeSet.Valid;
      AllRefer(nodes.at, ptrmap.members, freeNodes, cur, issued);
      VersionRange(nodes.at, ptrmap.members, freeNodes, cur, issued);
      var x := FindNode(idx);
      var y := FindNode(idy);
      if x != -1 && y != -1 {
        HasNeighbours(nodes.at, x);
        HasNeighbours(nodes.at, y);
        ViewRemoved(nodes.at, edges, x, y);
        FewerEdges(edges, nodes.at, freeNodes, x, y);
        Unlink(nodes.at, x, y, edges);
        edges := edges - {(x, y)};
      }
    }

    /** Adds an edge unless it would close a cycle. */
    method InsertEdge(idx: Id, idy: Id) returns (ok: bool)
      requires Valid() && idx in issued && idy in issued
      modifies this, nodes, Neighbours(nodes.at)
      ensures Valid() && cur == old(cur) && issued == old(issued)
      ensures OnlyRanksDiffer(old(nodes.at), nodes.at)
      ensures Inserted(old(nodes.at), nodes.at, old(IdEdges()), IdEdges(), idx, idy, ok)
      ensures idx in cur.Values && idy in cur.Values ==>
                && (ok <==> idx != idy && !Reach(old(IdEdges()), idy, idx))
                && IdEdges() == if ok then old(IdEdges()) + {(idx, idy)} else old(IdEdges())
    {
      hide Registered, FreeOfEdges, IsTable, Permutation, Increasing, Neighbours, Reach, Inserted, NodeSet.Valid;
      ghost var live := idx in cur.Values && idy in cur.Values;
      if live {
        LiveNotExpired(nodes.at, ptrmap.members, freeNodes, cur, issued, idx);
        LiveNotExpired(nodes.at, ptrmap.members, freeNodes, cur, issued, idy);
      }
      AllRefer(nodes.at, ptrmap.members, freeNodes, cur, issued);
      var x := FindNode(idx);
      var y := FindNode(idy);
      if x == -1 || y == -1 {
        InsertedNothing(nodes.at, IdEdges(), idx, idy);
        return true;
      }
      NotWaiting(nodes.at, ptrmap.members, freeNodes, cur, issued, x);
      NotWaiting(nodes.at, ptrmap.members, freeNodes, cur, issued, y);
      ghost var at, e := nodes.at, edges;
      VersionRange(at, ptrmap.members, freeNodes, cur, issued);
      ok := Connect(x, y);
      InsertedEdge(at, nodes.at, e, edges, x, y, ok);
      if live { InsertedLive(at, nodes.at, Rename(e, Ids(at)), IdEdges(), idx, idy, ok); }
    }

    /** The part of edge insertion that follows the lookup of the nodes. */
    method Connect(x: int, y: int) returns (ok: bool)
      requires Valid() && 0 <= x < |nodes.at| && 0 <= y < |nodes.at| && x !in freeNodes && y !in freeNodes
      modifies this, nodes, Neighbours(nodes.at)
      ensures Valid() && cur == old(cur) && issued == old(issued)
      ensures OnlyRanksDiffer(old(nodes.at), nodes.at)
      ensures ok == (x != y && !Reach(old(edges), y, x))
      ensures edges == if ok then old(edges) + {(x, y)} else old(edges)
      ensures if ok then RanksKept(old(nodes.at), nodes.at, x, y) else nodes.at == old(nodes.at)
    {
      hide Registered, FreeOfEdges, IsTable, Permutation, Increasing, Neighbours, Reach, NodeSet.Valid;
      if x == y {
        return false;  // self edge
      }
      var at := nodes.at;
      ghost var e := edges;
      FreeAfterEdge(e, freeNodes, x, y);
      HasNeighbours(at, x);
      HasNeighbours(at, y);
      var added := Link(at, x, y, e);
      if !added {
        EdgePresent(e, Ranks(at), x, y);
        return true;
      }
      ok := Settle(x, y);
    }

    /** The edge has just been stored at both ends; `edges` does not have it yet. */
    method Settle(x: int, y: int) returns (ok: bool)
      requires Stores(nodes.at, edges + {(x, y)}) && Marked(nodes.at, []) && Within(edges, |nodes.at|)
      requires Increasing(edges, Ranks(nodes.at)) && Permutation(Ranks(nodes.at)) && ptrmap.nodes == nodes && ptrmap.Valid()
      requires Registered(nodes.at, ptrmap.members, freeNodes, cur, issued)
      requires FreeOfEdges(edges, freeNodes) && FreeOfEdges(edges + {(x, y)}, freeNodes)
      requires 0 <= x < |nodes.at| && 0 <= y < |nodes.at| && x != y && (x, y) !in edges
      modifies this, nodes, nodes.at[x].outs, nodes.at[y].ins
      ensures Valid() && cur == old(cur) && issued == old(issued)
      ensures OnlyRanksDiffer(old(nodes.at), nodes.at)
      ensures ok <==> !Reach(old(edges), y, x)
      ensures edges == if ok then old(edges) + {(x, y)} else old(edges)
      ensures if ok then RanksKept(old(nodes.at), nodes.at, x, y) else nodes.at == old(nodes.at)
    {
      hide Registered, FreeOfEdges, IsTable, Permutation, Increasing, Neighbours, Reach, NodeSet.Valid;
      var at := nodes.at;
      ghost var e := edges;
      if at[x].rank <= at[y].rank {
        EdgeAgrees(e, Ranks(at), x, y);
        Commit(freeNodes, e + {(x, y)}, cur, issued);
        return true;
      }
      ghost var t := ptrmap.Snapshot();
      ok := RestoreOrder(nodes, x, y, e);
      SameSnapshot(at, nodes.at);
      assert ptrmap.Snapshot() == t;
      if !ok {
        Unlink(nodes.at, x, y, e + {(x, y)});
        assert e + {(x, y)} - {(x, y)} == e;
        return;
      }
      RanksKeepRest(at, nodes.at, e + {(x, y)}, ptrmap.members, freeNodes, cur, issued);
      Commit(freeNodes, e + {(x, y)}, cur, issued);
    }

    /** The length of a path from the first node to the second, 0 if there is none, and the ids of its first `limit` nodes. */
    method FindPath(idx: Id, idy: Id, limit: int, buf: array<Id>) returns (len: nat, ghost path: seq<Id>)
      requires Valid() && idx in issued && idy in issued && limit <= buf.Length && (buf as object) != ptrmap.table
      modifies buf
      ensures Valid() && IdEdges() == old(IdEdges())
      ensures len == 0 <==> Expired(nodes.at, idx) || Expired(nodes.at, idy) || !Reach(IdEdges(), idx, idy)
      ensures len > 0 ==> |path| == len && Joins(IdEdges(), path, idx, idy) && Distinct(path)
      ensures len > 0 ==> forall k :: 0 <= k < len && k < limit ==> buf[k] == path[k]
    {
      hide Registered, FreeOfEdges, IsTable, Permutation, Increasing, Neighbours, Reach, Acyclic, IsPath, PathSearch.Recorded, NodeSet.Valid;
      AllRefer(nodes.at, ptrmap.members, freeNodes, cur, issued);
      VersionRange(nodes.at, ptrmap.members, freeNodes, cur, issued);
      var x := FindNode(idx);
      var y := FindNode(idy);
      if x == -1 || y == -1 {
        return 0, [];
      }
      IncreasingAcyclic(edges, Ranks(nodes.at));
      ViewReach(nodes.at, edges, x, y);
      ghost var p;
      len, p := PathSearch.Search(nodes.at, x, y, limit, buf, edges);
      path := IdPath(nodes.at, p);
      if len > 0 {
        AcyclicPathSimple(edges, p);
        ViewPath(nodes.at, edges, p, x, y);
        ViewRecorded(nodes.at, edges, p, limit, buf[..], x, y);
      }
    }

    /** Is there a path from the first node to the second? */
    method IsReachable(idx: Id, idy: Id) returns (r: bool)
      requires Valid() && idx in issued && idy in issued
      ensures r <==> !Expired(nodes.at, idx) && !Expired(nodes.at, idy) && Reach(IdEdges(), idx, idy)
    {
      hide Registered, FreeOfEdges, IsTable, Permutation, Increasing, Neighbours, Reach, NodeSet.Valid;
      var buf := new Id[0];
      var len, path := FindPath(idx, idy, 0, buf);
      r := len > 0;
    }
  }
}
