/** The two depth-first searches and the rank reassignment, on the node vector. */
module Searches {
  import opened Digraphs
  import opened GraphNodes
  import opened NodeSets
  import opened PearceKelly

  function Ranks(at: seq<Node>): (r: seq<int>)
    ensures |r| == |at| && forall i :: 0 <= i < |r| ==> r[i] == at[i].rank
  {
    seq(|at|, i requires 0 <= i < |at| => at[i].rank)
  }

  /** The neighbour sets of all nodes. */
  ghost function Neighbours(at: seq<Node>): set<NodeSet> {
    (set i | 0 <= i < |at| :: at[i].ins) + (set i | 0 <= i < |at| :: at[i].outs)
  }

  /** No two nodes share a neighbour set. */
  ghost predicate Placed(at: seq<Node>) {
    forall i :: 0 <= i < |at| ==> at[i].ins.tag == 2 * i && at[i].outs.tag == 2 * i + 1
  }

  ghost function Successors(e: Edges, i: int): (s: set<int>)
    ensures forall j :: j in s <==> (i, j) in e
  {
    set p | p in e && p.0 == i :: p.1
  }

  ghost function Predecessors(e: Edges, i: int): (s: set<int>)
    ensures forall j :: j in s <==> (j, i) in e
  {
    set p | p in e && p.1 == i :: p.0
  }

  /** The successor sets store the edges `eo` and the predecessor sets the edges `ei`. */
  ghost predicate StoresApart(at: seq<Node>, eo: Edges, ei: Edges)
    reads Neighbours(at)
  {
    && Placed(at)
    && (forall i :: 0 <= i < |at| ==> at[i].outs.Valid() && at[i].outs.elems == Successors(eo, i))
    && (forall i :: 0 <= i < |at| ==> at[i].ins.Valid() && at[i].ins.elems == Predecessors(ei, i))
  }

  /** The neighbour sets store exactly the edges `e`, each at both of its ends. */
  ghost predicate Stores(at: seq<Node>, e: Edges)
    reads Neighbours(at)
  {
    Within(e, |at|) && StoresApart(at, e, e)
  }

  /** Exactly the nodes of `s` carry the visited mark. */
  ghost predicate Marked(at: seq<Node>, s: seq<int>) {
    forall i :: 0 <= i < |at| ==> (at[i].visited <==> i in s)
  }

  ghost predicate OnlyMarksDiffer(a: seq<Node>, b: seq<Node>) {
    |a| == |b| && forall i :: 0 <= i < |a| ==> b[i] == a[i].(visited := b[i].visited)
  }

  ghost predicate OnlyRanksDiffer(a: seq<Node>, b: seq<Node>) {
    |a| == |b| && forall i :: 0 <= i < |a| ==> b[i] == a[i].(rank := b[i].rank)
  }

  /** No node has moved whose rank lay outside the range from y to x. */
  ghost predicate RanksKept(a: seq<Node>, b: seq<Node>, x: int, y: int) {
    && 0 <= x < |a| == |b| && 0 <= y < |a|
    && forall v :: 0 <= v < |a| && !(a[y].rank <= a[v].rank <= a[x].rank) ==> b[v].rank == a[v].rank
  }

  lemma MarksKeepRest(a: seq<Node>, b: seq<Node>, e: Edges)
    requires OnlyMarksDiffer(a, b) && Stores(a, e)
    ensures Stores(b, e) && Ranks(b) == Ranks(a)
  {
  }

  ghost function Below(n: nat): (s: set<int>)
    ensures forall v :: v in s <==> 0 <= v < n
  {
    if n == 0 then {} else Below(n - 1) + {n - 1}
  }

  /** The nodes a search has yet to find. */
  ghost function Unfound(n: nat, found: seq<int>): set<int> {
    set v | v in Below(n) && v !in found
  }

  lemma FindOne(n: nat, found: seq<int>, v: int)
    requires 0 <= v < n && v !in found
    ensures Unfound(n, found + [v]) < Unfound(n, found)
  {
    assert v in Unfound(n, found);
  }

  /** What the forward search knows: everything found or pending lies between y and x, and what follows
      a found node is found or pending unless it ranks above x. */
  ghost predicate ForwardState(e: Edges, r: seq<int>, x: int, y: int, found: seq<int>, stack: seq<int>) {
    && Violated(e, r, x, y) && (y in found || y in stack) && Distinct(found)
    && (forall v :: v in found || v in stack ==> 0 <= v < |r| && r[v] < r[x] && Reach(e, y, v))
    && (forall u, w :: u in found && (u, w) in e ==> r[w] != r[x] && (r[w] < r[x] ==> w in found || w in stack))
  }

  lemma ForwardSkip(e: Edges, r: seq<int>, x: int, y: int, found: seq<int>, stack: seq<int>)
    requires stack != [] && ForwardState(e, r, x, y, found, stack) && stack[|stack| - 1] in found
    ensures ForwardState(e, r, x, y, found, stack[..|stack| - 1])
  {
    var rest := stack[..|stack| - 1];
    assert stack == rest + [stack[|stack| - 1]];
    assert forall w :: w in stack <==> w in rest || w == stack[|stack| - 1];
  }

  /** `stack'` is `stack` with successors of n pushed: all that rank below `upper`, where none ranks, but for found ones. */
  ghost predicate Pushed(e: Edges, r: seq<int>, n: int, upper: int, found: seq<int>, stack: seq<int>, stack': seq<int>) {
    && stack <= stack' && Within(e, |r|)
    && (forall w :: (n, w) in e ==> r[w] != upper && (r[w] < upper ==> w in found || w in stack'))
    && (forall w :: w in stack'[|stack|..] ==> (n, w) in e && r[w] < upper)
  }

  lemma ForwardStep(e: Edges, r: seq<int>, x: int, y: int, found: seq<int>, stack: seq<int>, n: int, stack': seq<int>)
    requires stack != [] && n == stack[|stack| - 1] && n !in found && ForwardState(e, r, x, y, found, stack)
    requires Pushed(e + {(x, y)}, r, n, r[x], found + [n], stack[..|stack| - 1], stack')
    ensures ForwardState(e, r, x, y, found + [n], stack')
  {
    var rest, pushed := stack[..|stack| - 1], stack'[|stack| - 1..];
    assert stack == rest + [n] && stack' == rest + pushed;
    assert forall w :: (w in stack <==> w in rest || w == n) && (w in stack' <==> w in rest || w in pushed);
    forall w | w in pushed ensures (n, w) in e && Reach(e, y, w) {
      assert n in stack && n != x;
      ReachEdge(e, n, w);
      ReachTrans(e, y, n, w);
    }
  }

  lemma ForwardHit(e: Edges, r: seq<int>, x: int, y: int, found: seq<int>, stack: seq<int>, n: int, w: int)
    requires n in stack && ForwardState(e, r, x, y, found, stack)
    requires (n, w) in e + {(x, y)} && 0 <= w < |r| && r[w] == r[x]
    ensures Reach(e, y, x)
  {
    ReachEdge(e, n, w);
    ReachTrans(e, y, n, w);
  }

  /** Pushes the unvisited successors of `n` that rank below `upper`, or reports one that has that rank. */
  method PushSuccessors(at: seq<Node>, n: int, upper: int, stack: seq<int>, ghost e: Edges, ghost found: seq<int>)
    returns (hit: bool, stack': seq<int>)
    requires Stores(at, e) && 0 <= n < |at| && Marked(at, found)
    ensures hit ==> exists w :: (n, w) in e && 0 <= w < |at| && at[w].rank == upper
    ensures !hit ==> Pushed(e, Ranks(at), n, upper, found, stack, stack')
  {
    stack' := stack;
    var outs, cursor := at[n].outs, 0;
    while true
      invariant cursor <= |outs.table| && stack <= stack'
      invariant forall w :: w in outs.Produced(cursor) ==>
                  (n, w) in e && at[w].rank != upper && (at[w].rank < upper ==> w in found || w in stack')
      invariant forall w :: w in stack'[|stack|..] ==> (n, w) in e && at[w].rank < upper
      decreases |outs.table| - cursor
    {
      var more, cursor', w := outs.Next(cursor);
      if !more {
        return false, stack';
      }
      cursor := cursor';
      assert (n, w) in e;
      var nw := at[w];
      if nw.rank == upper {
        return true, stack';
      }
      if !nw.visited && nw.rank < upper {
        stack' := stack' + [w];
      }
    }
  }

  lemma ForwardTop(e: Edges, r: seq<int>, x: int, y: int, found: seq<int>, stack: seq<int>, n: int)
    requires stack != [] && n == stack[|stack| - 1] && ForwardState(e, r, x, y, found, stack)
    ensures 0 <= n < |r| && forall v :: v in found + [n] ==> 0 <= v < |r|
  {
    assert n in stack;
  }

  /** Marks the unvisited node on top of the stack and expands it. */
  method ForwardVisit(nodes: NodeVec, n: int, upper: int, found: seq<int>, stack: seq<int>, ghost e: Edges, ghost x: int, ghost y: int)
    returns (hit: bool, stack': seq<int>)
    requires Stores(nodes.at, e + {(x, y)}) && 0 <= x < |nodes.at| && nodes.at[x].rank == upper
    requires stack != [] && n == stack[|stack| - 1] && 0 <= n < |nodes.at| && n !in found
    requires ForwardState(e, Ranks(nodes.at), x, y, found, stack) && Marked(nodes.at, found)
    modifies nodes
    ensures Marked(nodes.at, found + [n]) && OnlyMarksDiffer(old(nodes.at), nodes.at)
    ensures if hit then Reach(e, y, x) else ForwardState(e, Ranks(nodes.at), x, y, found + [n], stack')
  {
    hide ForwardState, Pushed, Reach, NodeSet.Valid;
    ghost var at, r := nodes.at, Ranks(nodes.at);
    nodes.at := nodes.at[n := nodes.at[n].(visited := true)];
    MarksKeepRest(at, nodes.at, e + {(x, y)});
    hit, stack' := PushSuccessors(nodes.at, n, upper, stack[..|stack| - 1], e + {(x, y)}, found + [n]);
    if hit {
      ghost var w :| (n, w) in e + {(x, y)} && 0 <= w < |nodes.at| && nodes.at[w].rank == upper;
      ForwardHit(e, r, x, y, found, stack, n, w);
    } else {
      ForwardStep(e, r, x, y, found, stack, n, stack');
    }
  }

  lemma MarksCompose(a: seq<Node>, b: seq<Node>, c: seq<Node>)
    requires OnlyMarksDiffer(a, b) && OnlyMarksDiffer(b, c)
    ensures OnlyMarksDiffer(a, c) && Ranks(c) == Ranks(b) == Ranks(a)
  {
  }

  /** Collects what is reachable from y below `upper`, the rank of x; fails iff that includes x itself. */
  method ForwardDFS(nodes: NodeVec, y: int, upper: int, ghost e: Edges, ghost x: int) returns (ok: bool, found: seq<int>)
    requires Stores(nodes.at, e + {(x, y)}) && Violated(e, Ranks(nodes.at), x, y) && nodes.at[x].rank == upper && Marked(nodes.at, [])
    modifies nodes
    ensures Marked(nodes.at, found) && OnlyMarksDiffer(old(nodes.at), nodes.at) && Stores(nodes.at, e + {(x, y)})
    ensures forall v :: v in found ==> 0 <= v < |nodes.at|
    ensures ok <==> !Reach(e, y, x)
    ensures ok ==> IsForward(e, Ranks(nodes.at), x, y, found) && Distinct(found)
  {
    hide Reach, NodeSet.Valid;
    ghost var at := nodes.at;
    found := [];
    var stack := [y];
    ReachRefl(e, y);
    while stack != []
      invariant OnlyMarksDiffer(at, nodes.at) && Marked(nodes.at, found) && Stores(nodes.at, e + {(x, y)})
      invariant ForwardState(e, Ranks(nodes.at), x, y, found, stack)
      invariant Ranks(nodes.at) == Ranks(at)
      decreases Unfound(|nodes.at|, found), |stack|
    {
      var n := stack[|stack| - 1];
      ghost var at0 := nodes.at;
      ForwardTop(e, Ranks(nodes.at), x, y, found, stack, n);
      if nodes.at[n].visited {
        ForwardSkip(e, Ranks(nodes.at), x, y, found, stack);
        stack := stack[..|stack| - 1];
      } else {
        FindOne(|nodes.at|, found, n);
        var hit, stack' := ForwardVisit(nodes, n, upper, found, stack, e, x, y);
        MarksKeepRest(at0, nodes.at, e + {(x, y)});
        MarksCompose(at, at0, nodes.at);
        found, stack := found + [n], stack';
        if hit {
          return false, found;
        }
      }
    }
    ForwardComplete(e, Ranks(nodes.at), x, y, found);
    ok := true;
  }

  ghost predicate AllReached(e: Edges, y: int, fs: seq<int>) {
    forall v :: v in fs ==> Reach(e, y, v)
  }

  /** What the backward search knows. */
  ghost predicate BackwardState(e: Edges, r: seq<int>, x: int, y: int, found: seq<int>, stack: seq<int>) {
    && Within(e, |r|) && 0 <= y < |r| && (x in found || x in stack) && Distinct(found)
    && (forall v :: v in found || v in stack ==> 0 <= v < |r| && r[y] < r[v] && Reach(e, v, x))
    && (forall u, w :: u in found && (w, u) in e && 0 <= w < |r| && r[y] < r[w] ==> w in found || w in stack)
  }

  lemma BackwardSkip(e: Edges, r: seq<int>, x: int, y: int, found: seq<int>, stack: seq<int>)
    requires stack != [] && BackwardState(e, r, x, y, found, stack) && stack[|stack| - 1] in found
    ensures BackwardState(e, r, x, y, found, stack[..|stack| - 1])
  {
    var rest := stack[..|stack| - 1];
    assert stack == rest + [stack[|stack| - 1]];
    assert forall w :: w in stack <==> w in rest || w == stack[|stack| - 1];
  }

  /** `stack'` is `stack` with predecessors of n pushed: all that rank above `lower`, but for marked ones. */
  ghost predicate PushedBack(e: Edges, r: seq<int>, n: int, lower: int, marked: seq<int>, stack: seq<int>, stack': seq<int>) {
    && stack <= stack' && Within(e, |r|)
    && (forall w :: (w, n) in e && lower < r[w] ==> w in marked || w in stack')
    && (forall w :: w in stack'[|stack|..] ==> (w, n) in e && lower < r[w])
  }

  /** The nodes marked by the forward search are not in the way: none of them reaches x. */
  lemma BackwardStep(e: Edges, r: seq<int>, x: int, y: int, fs: seq<int>, found: seq<int>, stack: seq<int>, n: int, stack': seq<int>)
    requires stack != [] && n == stack[|stack| - 1] && n !in found && BackwardState(e, r, x, y, found, stack)
    requires !Reach(e, y, x) && AllReached(e, y, fs)
    requires PushedBack(e + {(x, y)}, r, n, r[y], fs + (found + [n]), stack[..|stack| - 1], stack')
    ensures BackwardState(e, r, x, y, found + [n], stack')
  {
    var rest, pushed := stack[..|stack| - 1], stack'[|stack| - 1..];
    assert stack == rest + [n] && stack' == rest + pushed;
    assert forall w :: (w in stack <==> w in rest || w == n) && (w in stack' <==> w in rest || w in pushed);
    forall w | (w, n) in e ensures Reach(e, w, x) && w !in fs {
      ReachEdge(e, w, n);
      ReachTrans(e, w, n, x);
      if w in fs { ReachTrans(e, y, w, x); }
    }
    assert n in stack && n != y;
  }

  lemma BackwardTop(e: Edges, r: seq<int>, x: int, y: int, fs: seq<int>, found: seq<int>, stack: seq<int>, n: int)
    requires stack != [] && n == stack[|stack| - 1] && BackwardState(e, r, x, y, found, stack)
    requires !Reach(e, y, x) && AllReached(e, y, fs)
    ensures 0 <= n < |r| && n !in fs && forall v :: v in found + [n] ==> 0 <= v < |r|
  {
    assert n in stack;
    if n in fs { ReachTrans(e, y, n, x); }
  }

  /** Pushes the unvisited predecessors of `n` that rank above `lower`. */
  method PushPredecessors(at: seq<Node>, n: int, lower: int, stack: seq<int>, ghost e: Edges, ghost marked: seq<int>)
    returns (stack': seq<int>)
    requires Stores(at, e) && 0 <= n < |at| && Marked(at, marked)
    ensures PushedBack(e, Ranks(at), n, lower, marked, stack, stack')
  {
    stack' := stack;
    var ins, cursor := at[n].ins, 0;
    while true
      invariant cursor <= |ins.table| && stack <= stack'
      invariant forall w :: w in ins.Produced(cursor) ==> (w, n) in e && (lower < at[w].rank ==> w in marked || w in stack')
      invariant forall w :: w in stack'[|stack|..] ==> (w, n) in e && lower < at[w].rank
      decreases |ins.table| - cursor
    {
      var more, cursor', w := ins.Next(cursor);
      if !more {
        return;
      }
      cursor := cursor';
      assert (w, n) in e;
      var nw := at[w];
      if !nw.visited && lower < nw.rank {
        stack' := stack' + [w];
      }
    }
  }

  lemma MarkOne(at: seq<Node>, n: int, fs: seq<int>, found: seq<int>)
    requires Marked(at, fs + found) && 0 <= n < |at|
    ensures Marked(at[n := at[n].(visited := true)], fs + (found + [n]))
    ensures OnlyMarksDiffer(at, at[n := at[n].(visited := true)])
  {
    assert fs + (found + [n]) == (fs + found) + [n];
  }

  /** Marks the unvisited node on top of the stack and expands it backwards. */
  method BackwardVisit(nodes: NodeVec, n: int, lower: int, found: seq<int>, stack: seq<int>,
                       ghost e: Edges, ghost x: int, ghost y: int, ghost fs: seq<int>)
    returns (stack': seq<int>)
    requires Stores(nodes.at, e + {(x, y)}) && 0 <= y < |nodes.at| && nodes.at[y].rank == lower
    requires !Reach(e, y, x) && AllReached(e, y, fs)
    requires stack != [] && n == stack[|stack| - 1] && 0 <= n < |nodes.at| && n !in found
    requires BackwardState(e, Ranks(nodes.at), x, y, found, stack) && Marked(nodes.at, fs + found)
    modifies nodes
    ensures Marked(nodes.at, fs + (found + [n])) && OnlyMarksDiffer(old(nodes.at), nodes.at) && Stores(nodes.at, e + {(x, y)})
    ensures BackwardState(e, Ranks(nodes.at), x, y, found + [n], stack')
  {
    hide BackwardState, PushedBack, Reach, NodeSet.Valid;
    ghost var at := nodes.at;
    nodes.at := nodes.at[n := nodes.at[n].(visited := true)];
    MarkOne(at, n, fs, found);
    MarksKeepRest(at, nodes.at, e + {(x, y)});
    stack' := PushPredecessors(nodes.at, n, lower, stack[..|stack| - 1], e + {(x, y)}, fs + (found + [n]));
    BackwardStep(e, Ranks(nodes.at), x, y, fs, found, stack, n, stack');
  }

  /** Collects what reaches x from above `lower`, the rank of y, skipping nodes the forward search has marked. */
  method BackwardDFS(nodes: NodeVec, x: int, lower: int, ghost e: Edges, ghost y: int, ghost fs: seq<int>) returns (found: seq<int>)
    requires Stores(nodes.at, e + {(x, y)}) && Violated(e, Ranks(nodes.at), x, y) && nodes.at[y].rank == lower
    requires !Reach(e, y, x) && Marked(nodes.at, fs) && AllReached(e, y, fs)
    modifies nodes
    ensures Marked(nodes.at, fs + found) && OnlyMarksDiffer(old(nodes.at), nodes.at) && Stores(nodes.at, e + {(x, y)})
    ensures IsBackward(e, Ranks(nodes.at), x, y, found) && Distinct(found)
  {
    hide Reach, NodeSet.Valid;
    ghost var at := nodes.at;
    found := [];
    var stack := [x];
    ReachRefl(e, x);
    assert fs + found == fs;
    while stack != []
      invariant OnlyMarksDiffer(at, nodes.at) && Marked(nodes.at, fs + found) && Stores(nodes.at, e + {(x, y)})
      invariant BackwardState(e, Ranks(nodes.at), x, y, found, stack)
      invariant Ranks(nodes.at) == Ranks(at)
      decreases Unfound(|nodes.at|, found), |stack|
    {
      var n := stack[|stack| - 1];
      ghost var at0 := nodes.at;
      BackwardTop(e, Ranks(nodes.at), x, y, fs, found, stack, n);
      if nodes.at[n].visited {
        BackwardSkip(e, Ranks(nodes.at), x, y, found, stack);
        stack := stack[..|stack| - 1];
      } else {
        FindOne(|nodes.at|, found, n);
        var stack' := BackwardVisit(nodes, n, lower, found, stack, e, x, y, fs);
        MarksCompose(at, at0, nodes.at);
        found, stack := found + [n], stack';
      }
    }
    BackwardComplete(e, Ranks(nodes.at), x, y, found);
  }

  /** `b` is `a` with the marks of the listed nodes cleared. */
  ghost predicate Unmarked(a: seq<Node>, b: seq<Node>, s: seq<int>) {
    |b| == |a| && forall v :: 0 <= v < |a| ==> b[v] == if v in s then a[v].(visited := false) else a[v]
  }

  lemma AllUnmarked(a: seq<Node>, b: seq<Node>, c: seq<Node>, deltaf: seq<int>, deltab: seq<int>, fs: seq<int>, bs: seq<int>)
    requires Marked(a, deltaf + deltab) && Unmarked(a, b, bs) && Unmarked(b, c, fs)
    requires (forall v :: v in fs <==> v in deltaf) && (forall v :: v in bs <==> v in deltab)
    ensures |c| == |a| && forall v :: 0 <= v < |a| ==> c[v] == a[v].(visited := false)
  {
    forall v | 0 <= v < |a| ensures c[v] == a[v].(visited := false) {
      assert v in deltaf + deltab <==> v in fs || v in bs;
      assert a[v].visited <==> v in fs || v in bs;
    }
  }

  /** Appends the nodes of `src`, with their marks cleared, to the list and turns `src` into the list of their ranks. */
  method MoveToList(nodes: NodeVec, src: seq<int>, dst: seq<int>) returns (ranks: seq<int>, dst': seq<int>)
    requires PearceKelly.Valid(Ranks(nodes.at), src)
    modifies nodes
    ensures dst' == dst + src && ranks == Gather(old(Ranks(nodes.at)), src)
    ensures Unmarked(old(nodes.at), nodes.at, src) && Ranks(nodes.at) == old(Ranks(nodes.at))
  {
    ghost var at := nodes.at;
    ranks, dst' := [], dst;
    for i := 0 to |src|
      invariant |nodes.at| == |at| && dst' == dst + src[..i] && |ranks| == i
      invariant forall k :: 0 <= k < i ==> ranks[k] == at[src[k]].rank
      invariant forall v :: 0 <= v < |at| ==> nodes.at[v] == if v in src[..i] then at[v].(visited := false) else at[v]
    {
      var w := src[i];
      assert src[..i + 1] == src[..i] + [w];
      ranks := ranks + [nodes.at[w].rank];
      nodes.at := nodes.at[w := nodes.at[w].(visited := false)];
      dst' := dst' + [w];
    }
    assert src[..|src|] == src;
  }

  /** Deals the pooled ranks out to the listed nodes, in order. */
  method AssignRanks(nodes: NodeVec, list: seq<int>, merged: seq<int>)
    requires |merged| == |list| && PearceKelly.Valid(Ranks(nodes.at), list) && Distinct(list)
    modifies nodes
    ensures OnlyRanksDiffer(old(nodes.at), nodes.at) && Renumbered(old(Ranks(nodes.at)), Ranks(nodes.at), list, merged)
  {
    ghost var at := nodes.at;
    for i := 0 to |list|
      invariant |nodes.at| == |at|
      invariant forall k :: 0 <= k < i ==> nodes.at[list[k]].rank == merged[k]
      invariant forall v :: 0 <= v < |at| ==> nodes.at[v] == at[v].(rank := nodes.at[v].rank) && (v !in list[..i] ==> nodes.at[v] == at[v])
    {
      assert list[..i + 1] == list[..i] + [list[i]];
      nodes.at := nodes.at[list[i] := nodes.at[list[i]].(rank := merged[i])];
    }
    assert list[..|list|] == list;
  }

  lemma Ranged(r: seq<int>, s: seq<int>)
    requires forall v :: v in s ==> 0 <= v < |r|
    ensures PearceKelly.Valid(r, s)
  {
    forall i | 0 <= i < |s| ensures 0 <= s[i] < |r| {
      assert s[i] in s;
    }
  }

  lemma AscendingDistinct(r: seq<int>, s: seq<int>)
    requires PearceKelly.Valid(r, s) && Ascending(Gather(r, s))
    ensures Distinct(s)
  {
    forall i, j | 0 <= i < j < |s| ensures s[i] != s[j] {
      assert Gather(r, s)[i] < Gather(r, s)[j];
    }
  }

  /** Both search results can be sorted strictly by rank, and no node is in both. */
  lemma SearchesSorted(e: Edges, r: seq<int>, x: int, y: int, deltab: seq<int>, deltaf: seq<int>)
    requires Violated(e, r, x, y) && !Reach(e, y, x)
    requires IsBackward(e, r, x, y, deltab) && Distinct(deltab) && IsForward(e, r, x, y, deltaf) && Distinct(deltaf)
    ensures PearceKelly.Valid(r, deltab) && PearceKelly.Valid(r, deltaf)
    ensures Arranged(e, r, x, y, SortByRank(r, deltab), SortByRank(r, deltaf))
    ensures Distinct(SortByRank(r, deltab) + SortByRank(r, deltaf))
  {
    Ranged(r, deltab);
    Ranged(r, deltaf);
    SortAscending(r, deltab);
    SortAscending(r, deltaf);
    var bs, fs := SortByRank(r, deltab), SortByRank(r, deltaf);
    AscendingDistinct(r, bs);
    AscendingDistinct(r, fs);
    forall i, j | 0 <= i < |bs| && 0 <= j < |fs| ensures bs[i] != fs[j] {
      var v := bs[i];
      assert v in deltab && fs[j] in deltaf;
      if v == fs[j] { ReachTrans(e, y, v, x); }
    }
  }

  /** Sorts both search results, lists their nodes with the backward ones first, and pools their ranks. */
  method ListAffected(nodes: NodeVec, deltab: seq<int>, deltaf: seq<int>) returns (list: seq<int>, merged: seq<int>)
    requires PearceKelly.Valid(Ranks(nodes.at), deltab) && PearceKelly.Valid(Ranks(nodes.at), deltaf) && Marked(nodes.at, deltaf + deltab)
    modifies nodes
    ensures |nodes.at| == |old(nodes.at)| && forall v :: 0 <= v < |nodes.at| ==> nodes.at[v] == old(nodes.at)[v].(visited := false)
    ensures list == SortByRank(old(Ranks(nodes.at)), deltab) + SortByRank(old(Ranks(nodes.at)), deltaf)
    ensures merged == Pool(old(Ranks(nodes.at)), SortByRank(old(Ranks(nodes.at)), deltab), SortByRank(old(Ranks(nodes.at)), deltaf))
  {
    ghost var at := nodes.at;
    var r := Ranks(nodes.at);
    var bs, fs := SortByRank(r, deltab), SortByRank(r, deltaf);
    var rb, list1 := MoveToList(nodes, bs, []);
    ghost var at1 := nodes.at;
    var rf;
    rf, list := MoveToList(nodes, fs, list1);
    AllUnmarked(at, at1, nodes.at, deltaf, deltab, fs, bs);
    assert [] + bs == bs;
    merged := Merge(rb, rf);
  }

  /** Sorts both search results by rank and redistributes their ranks. */
  method Reorder(nodes: NodeVec, deltab: seq<int>, deltaf: seq<int>, ghost e: Edges, ghost x: int, ghost y: int)
    requires Violated(e, Ranks(nodes.at), x, y) && !Reach(e, y, x) && Marked(nodes.at, deltaf + deltab)
    requires IsBackward(e, Ranks(nodes.at), x, y, deltab) && Distinct(deltab)
    requires IsForward(e, Ranks(nodes.at), x, y, deltaf) && Distinct(deltaf)
    modifies nodes
    ensures |nodes.at| == |old(nodes.at)|
    ensures forall v :: 0 <= v < |nodes.at| ==> nodes.at[v] == old(nodes.at)[v].(rank := nodes.at[v].rank, visited := false)
    ensures Increasing(e + {(x, y)}, Ranks(nodes.at)) && Permutation(Ranks(nodes.at))
    ensures RanksKept(old(nodes.at), nodes.at, x, y)
  {
    ghost var r := Ranks(nodes.at);
    SearchesSorted(e, r, x, y, deltab, deltaf);
    var list, merged := ListAffected(nodes, deltab, deltaf);
    assert Ranks(nodes.at) == r;
    AssignRanks(nodes, list, merged);
    ReorderCorrect(e, r, x, y, SortByRank(r, deltab), SortByRank(r, deltaf), Ranks(nodes.at));
  }

  /** Clears the marks a rejected forward search has left. */
  method ClearMarks(nodes: NodeVec, found: seq<int>)
    requires forall v :: v in found ==> 0 <= v < |nodes.at|
    modifies nodes
    ensures Unmarked(old(nodes.at), nodes.at, found)
  {
    ghost var at := nodes.at;
    for i := 0 to |found|
      invariant Unmarked(at, nodes.at, found[..i])
    {
      assert found[..i + 1] == found[..i] + [found[i]];
      assert found[i] in found;
      nodes.at := nodes.at[found[i] := nodes.at[found[i]].(visited := false)];
    }
    assert found[..|found|] == found;
  }

  lemma MarksUndone(a: seq<Node>, b: seq<Node>, c: seq<Node>, found: seq<int>)
    requires Marked(a, []) && OnlyMarksDiffer(a, b) && Marked(b, found) && Unmarked(b, c, found)
    ensures c == a
  {
    assert forall v :: 0 <= v < |a| ==> c[v] == a[v];
  }

  lemma MarksThenRanks(a: seq<Node>, b: seq<Node>, c: seq<Node>, x: int, y: int)
    requires Marked(a, []) && OnlyMarksDiffer(a, b) && |c| == |b| && RanksKept(b, c, x, y)
    requires forall v :: 0 <= v < |b| ==> c[v] == b[v].(rank := c[v].rank, visited := false)
    ensures OnlyRanksDiffer(a, c) && RanksKept(a, c, x, y)
  {
  }

  /** The edge x -> y is stored but runs against the ranks: either re-ranks the nodes between y and x,
      or finds that y already reached x and leaves the nodes as they were. */
  method RestoreOrder(nodes: NodeVec, x: int, y: int, ghost e: Edges) returns (ok: bool)
    requires Stores(nodes.at, e + {(x, y)}) && Violated(e, Ranks(nodes.at), x, y) && Marked(nodes.at, [])
    modifies nodes
    ensures ok <==> !Reach(e, y, x)
    ensures !ok ==> nodes.at == old(nodes.at)
    ensures ok ==> OnlyRanksDiffer(old(nodes.at), nodes.at) && RanksKept(old(nodes.at), nodes.at, x, y)
    ensures ok ==> Increasing(e + {(x, y)}, Ranks(nodes.at)) && Permutation(Ranks(nodes.at))
  {
    ghost var at := nodes.at;
    var deltaf;
    ok, deltaf := ForwardDFS(nodes, y, nodes.at[x].rank, e, x);
    ghost var at1 := nodes.at;
    MarksCompose(at, at, at1);
    if !ok {
      ClearMarks(nodes, deltaf);
      MarksUndone(at, at1, nodes.at, deltaf);
      return;
    }
    var deltab := BackwardDFS(nodes, x, nodes.at[y].rank, e, y, deltaf);
    ghost var at2 := nodes.at;
    MarksCompose(at, at1, at2);
    Reorder(nodes, deltab, deltaf, e, x, y);
    MarksThenRanks(at, at2, nodes.at, x, y);
  }
}
