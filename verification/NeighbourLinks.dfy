/** Changing the two neighbour sets at the ends of an edge. */
module NeighbourLinks {
  import opened Digraphs
  import opened GraphNodes
  import opened NodeSets
  import opened Searches

  /** `eo'` has the edges of `eo` and x -> y, seen from their sources. */
  ghost predicate GainsOut(eo: Edges, eo': Edges, x: int, y: int) {
    forall i :: Successors(eo', i) == if i == x then Successors(eo, i) + {y} else Successors(eo, i)
  }

  ghost predicate LosesOut(eo: Edges, eo': Edges, x: int, y: int) {
    forall i :: Successors(eo', i) == if i == x then Successors(eo, i) - {y} else Successors(eo, i)
  }

  ghost predicate GainsIn(ei: Edges, ei': Edges, x: int, y: int) {
    forall j :: Predecessors(ei', j) == if j == y then Predecessors(ei, j) + {x} else Predecessors(ei, j)
  }

  ghost predicate LosesIn(ei: Edges, ei': Edges, x: int, y: int) {
    forall j :: Predecessors(ei', j) == if j == y then Predecessors(ei, j) - {x} else Predecessors(ei, j)
  }

  lemma AddEdge(e: Edges, x: int, y: int)
    ensures GainsOut(e, e + {(x, y)}, x, y) && GainsIn(e, e + {(x, y)}, x, y)
  {
  }

  lemma DropEdge(e: Edges, x: int, y: int)
    ensures LosesOut(e, e - {(x, y)}, x, y) && LosesIn(e, e - {(x, y)}, x, y)
  {
  }

  method InsertOut(at: seq<Node>, x: int, y: int, ghost eo: Edges, ghost eo': Edges, ghost ei: Edges) returns (added: bool)
    requires StoresApart(at, eo, ei) && 0 <= x < |at| && 0 <= y < |at| && GainsOut(eo, eo', x, y)
    modifies at[x].outs
    ensures StoresApart(at, eo', ei) && added == ((x, y) !in eo)
  {
    added := at[x].outs.Insert(y);
  }

  method InsertIn(at: seq<Node>, x: int, y: int, ghost eo: Edges, ghost ei: Edges, ghost ei': Edges)
    requires StoresApart(at, eo, ei) && 0 <= x < |at| && 0 <= y < |at| && GainsIn(ei, ei', x, y)
    modifies at[y].ins
    ensures StoresApart(at, eo, ei')
  {
    var added := at[y].ins.Insert(x);
  }

  method EraseOut(at: seq<Node>, x: int, y: int, ghost eo: Edges, ghost eo': Edges, ghost ei: Edges)
    requires StoresApart(at, eo, ei) && 0 <= x < |at| && 0 <= y < |at| && LosesOut(eo, eo', x, y)
    modifies at[x].outs
    ensures StoresApart(at, eo', ei)
  {
    at[x].outs.Erase(y);
  }

  method EraseIn(at: seq<Node>, x: int, y: int, ghost eo: Edges, ghost ei: Edges, ghost ei': Edges)
    requires StoresApart(at, eo, ei) && 0 <= x < |at| && 0 <= y < |at| && LosesIn(ei, ei', x, y)
    modifies at[y].ins
    ensures StoresApart(at, eo, ei')
  {
    at[y].ins.Erase(x);
  }

  /** The edges without those from `i` to a node of `done`. */
  ghost function CutOut(e: Edges, i: int, done: set<int>): Edges {
    set p | p in e && !(p.0 == i && p.1 in done)
  }

  /** The edges without those from a node of `done` to `i`. */
  ghost function CutIn(e: Edges, i: int, done: set<int>): Edges {
    set p | p in e && !(p.1 == i && p.0 in done)
  }

  lemma CutNothing(e: Edges, i: int)
    ensures CutOut(e, i, {}) == CutIn(e, i, {}) == e
  {
  }

  lemma CutOutStep(e: Edges, i: int, done: set<int>, y: int)
    ensures LosesIn(CutOut(e, i, done), CutOut(e, i, done + {y}), i, y)
  {
    assert CutOut(e, i, done + {y}) == CutOut(e, i, done) - {(i, y)};
    DropEdge(CutOut(e, i, done), i, y);
  }

  lemma CutInStep(e: Edges, i: int, done: set<int>, y: int)
    ensures LosesOut(CutIn(e, i, done), CutIn(e, i, done + {y}), y, i)
  {
    assert CutIn(e, i, done + {y}) == CutIn(e, i, done) - {(y, i)};
    DropEdge(CutIn(e, i, done), y, i);
  }

  /** A neighbour of node `i` is another node, with neighbour sets of its own. */
  lemma Neighbour(at: seq<Node>, e: Edges, i: int, y: int)
    requires Placed(at) && Within(e, |at|) && 0 <= i < |at| && (i, i) !in e
    requires y in Successors(e, i) || y in Predecessors(e, i)
    ensures 0 <= y < |at| && at[y].ins in Neighbours(at) && at[y].outs in Neighbours(at)
    ensures {at[y].ins, at[y].outs} !! {at[i].ins, at[i].outs}
  {
    assert (i, y) in e || (y, i) in e;
    assert y == (i, y).1 == (y, i).0;
    assert at[y].ins.tag == 2 * y && at[y].outs.tag == 2 * y + 1;
  }

  method ForgetOne(at: seq<Node>, i: int, y: int, ghost e: Edges, ghost done: set<int>)
    requires StoresApart(at, e, CutOut(e, i, done)) && 0 <= i < |at| && 0 <= y < |at|
    modifies at[y].ins
    ensures StoresApart(at, e, CutOut(e, i, done + {y}))
  {
    CutOutStep(e, i, done, y);
    EraseIn(at, i, y, e, CutOut(e, i, done), CutOut(e, i, done + {y}));
  }

  /** Takes node `i` out of the predecessor sets of its successors. */
  method ForgetAsPredecessor(at: seq<Node>, i: int, ghost e: Edges)
    requires Stores(at, e) && 0 <= i < |at| && (i, i) !in e
    modifies Neighbours(at)
    ensures StoresApart(at, e, CutOut(e, i, Successors(e, i)))
  {
    hide NodeSet.Valid, Successors, Predecessors, CutOut, CutIn;
    var outs, cursor := at[i].outs, 0;
    ghost var done: set<int> := {};
    CutNothing(e, i);
    while true
      invariant outs.Valid() && outs.elems == Successors(e, i)
      invariant cursor <= |outs.table| && done == outs.Produced(cursor)
      invariant StoresApart(at, e, CutOut(e, i, done))
      decreases |outs.table| - cursor
    {
      var more, cursor', y := outs.Next(cursor);
      if !more {
        return;
      }
      Neighbour(at, e, i, y);
      ForgetOne(at, i, y, e, done);
      done, cursor := done + {y}, cursor';
    }
  }

  method DropOne(at: seq<Node>, i: int, y: int, ghost e: Edges, ghost ei: Edges, ghost done: set<int>)
    requires StoresApart(at, CutIn(e, i, done), ei) && 0 <= i < |at| && 0 <= y < |at|
    modifies at[y].outs
    ensures StoresApart(at, CutIn(e, i, done + {y}), ei)
  {
    CutInStep(e, i, done, y);
    EraseOut(at, y, i, CutIn(e, i, done), CutIn(e, i, done + {y}), ei);
  }

  /** Takes node `i` out of the successor sets of its predecessors. */
  method ForgetAsSuccessor(at: seq<Node>, i: int, ghost e: Edges, ghost ei: Edges)
    requires StoresApart(at, e, ei) && Within(e, |at|) && 0 <= i < |at| && (i, i) !in e
    requires Predecessors(ei, i) == Predecessors(e, i)
    modifies Neighbours(at)
    ensures StoresApart(at, CutIn(e, i, Predecessors(e, i)), ei)
  {
    hide NodeSet.Valid, Successors, Predecessors, CutOut, CutIn;
    var ins, cursor := at[i].ins, 0;
    ghost var done: set<int> := {};
    CutNothing(e, i);
    while true
      invariant ins.Valid() && ins.elems == Predecessors(e, i)
      invariant cursor <= |ins.table| && done == ins.Produced(cursor)
      invariant StoresApart(at, CutIn(e, i, done), ei)
      decreases |ins.table| - cursor
    {
      var more, cursor', y := ins.Next(cursor);
      if !more {
        return;
      }
      Neighbour(at, e, i, y);
      DropOne(at, i, y, e, ei, done);
      done, cursor := done + {y}, cursor';
    }
  }

  lemma DetachedSets(e: Edges, i: int, j: int)
    ensures Successors(Detached(e, i), j) == if j == i then {} else Successors(CutIn(e, i, Predecessors(e, i)), j)
    ensures Predecessors(Detached(e, i), j) == if j == i then {} else Predecessors(CutOut(e, i, Successors(e, i)), j)
  {
  }

  /** Removes every edge to and from node `i`. */
  method Isolate(at: seq<Node>, i: int, ghost e: Edges)
    requires Stores(at, e) && 0 <= i < |at| && (i, i) !in e
    modifies Neighbours(at)
    ensures Stores(at, Detached(e, i))
  {
    ForgetAsPredecessor(at, i, e);
    ghost var ei := CutOut(e, i, Successors(e, i));
    assert Predecessors(ei, i) == Predecessors(e, i);
    ForgetAsSuccessor(at, i, e, ei);
    ClearSets(at, i, e);
  }

  method ClearSets(at: seq<Node>, i: int, ghost e: Edges)
    requires StoresApart(at, CutIn(e, i, Predecessors(e, i)), CutOut(e, i, Successors(e, i))) && Within(e, |at|) && 0 <= i < |at|
    modifies at[i].ins, at[i].outs
    ensures Stores(at, Detached(e, i))
  {
    at[i].ins.Reset();
    at[i].outs.Reset();
    forall j | 0 <= j < |at| ensures at[j].outs.elems == Successors(Detached(e, i), j) && at[j].ins.elems == Predecessors(Detached(e, i), j) {
      DetachedSets(e, i, j);
    }
  }

  /** Adds the edge at both ends, unless it is already there. */
  method Link(at: seq<Node>, x: int, y: int, ghost e: Edges) returns (added: bool)
    requires Stores(at, e) && 0 <= x < |at| && 0 <= y < |at|
    modifies at[x].outs, at[y].ins
    ensures Stores(at, e + {(x, y)}) && added == ((x, y) !in e)
  {
    AddEdge(e, x, y);
    added := InsertOut(at, x, y, e, e + {(x, y)}, e);
    if added {
      InsertIn(at, x, y, e + {(x, y)}, e, e + {(x, y)});
    } else {
      assert e + {(x, y)} == e;
    }
  }

  /** Takes the edge away at both ends. */
  method Unlink(at: seq<Node>, x: int, y: int, ghost e: Edges)
    requires Stores(at, e) && 0 <= x < |at| && 0 <= y < |at|
    modifies at[x].outs, at[y].ins
    ensures Stores(at, e - {(x, y)})
  {
    DropEdge(e, x, y);
    EraseOut(at, x, y, e, e - {(x, y)}, e);
    EraseIn(at, x, y, e - {(x, y)}, e, e - {(x, y)});
  }
}
