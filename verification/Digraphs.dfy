/** Finite directed graphs as sets of edges: reachability, acyclicity, topological ranks. */
module Digraphs {

  type Edges = set<(int, int)>

  /** `s` is closed under following edges. */
  ghost predicate Closed(e: Edges, s: iset<int>) {
    forall a, b :: (a, b) in e && a in s ==> b in s
  }

  /** `b` can be reached from `a`: every closed set that contains `a` contains `b`.
      Lemma `ReachIsPath` shows that this is the same as being joined by a path. */
  ghost predicate Reach(e: Edges, a: int, b: int) {
    forall s: iset<int> :: Closed(e, s) && a in s ==> b in s
  }

  /** No edge lies on a cycle. */
  ghost predicate Acyclic(e: Edges) {
    forall a, b :: (a, b) in e ==> !Reach(e, b, a)
  }

  /** Every edge joins two of the indices of `r` and goes from a lower to a higher rank. */
  ghost predicate Increasing(e: Edges, r: seq<int>) {
    forall a, b :: (a, b) in e ==> 0 <= a < |r| && 0 <= b < |r| && r[a] < r[b]
  }

  lemma ReachRefl(e: Edges, a: int)
    ensures Reach(e, a, a)
  {
  }

  lemma ReachEdge(e: Edges, a: int, b: int)
    requires (a, b) in e
    ensures Reach(e, a, b)
  {
  }

  lemma ReachTrans(e: Edges, a: int, b: int, c: int)
    requires Reach(e, a, b) && Reach(e, b, c)
    ensures Reach(e, a, c)
  {
  }

  /** A closed set contains everything reachable from its members. */
  lemma ClosedReach(e: Edges, s: iset<int>, a: int, b: int)
    requires Closed(e, s) && a in s && Reach(e, a, b)
    ensures b in s
  {
  }

  lemma ReachMono(e: Edges, f: Edges, a: int, b: int)
    requires e <= f && Reach(e, a, b)
    ensures Reach(f, a, b)
  {
    var s := iset v | Reach(f, a, v);
    forall u, v | (u, v) in e && u in s ensures v in s {
      ReachEdge(f, u, v);
      ReachTrans(f, a, u, v);
    }
    ReachRefl(f, a);
    ClosedReach(e, s, a, b);
  }

  /** Along any path ranks do not decrease, and only the empty path keeps the rank. */
  lemma IncreasingReach(e: Edges, r: seq<int>, a: int, b: int)
    requires Increasing(e, r) && 0 <= a < |r| && Reach(e, a, b)
    ensures 0 <= b < |r| && (a == b || r[a] < r[b])
  {
    var s := iset v | 0 <= v < |r| && (v == a || r[a] < r[v]);
    ClosedReach(e, s, a, b);
  }

  /** A graph with a topological ranking has no cycle. */
  lemma IncreasingAcyclic(e: Edges, r: seq<int>)
    requires Increasing(e, r)
    ensures Acyclic(e)
  {
    forall a, b | (a, b) in e ensures !Reach(e, b, a) {
      if Reach(e, b, a) {
        IncreasingReach(e, r, b, a);
      }
    }
  }

  /** Reachability after adding one edge: either the old one, or through the new edge. */
  lemma ReachAddEdge(e: Edges, x: int, y: int, a: int, b: int)
    ensures Reach(e + {(x, y)}, a, b) <==> Reach(e, a, b) || (Reach(e, a, x) && Reach(e, y, b))
  {
    var f := e + {(x, y)};
    if Reach(f, a, b) {
      var s := iset v | Reach(e, a, v) || (Reach(e, a, x) && Reach(e, y, v));
      forall u, v | (u, v) in f && u in s ensures v in s {
        if (u, v) in e {
          ReachEdge(e, u, v);
          if Reach(e, a, u) { ReachTrans(e, a, u, v); } else { ReachTrans(e, y, u, v); }
        } else {
          ReachRefl(e, y);
        }
      }
      ReachRefl(e, a);
      ClosedReach(f, s, a, b);
    }
    if Reach(e, a, b) { ReachMono(e, f, a, b); }
    if Reach(e, a, x) && Reach(e, y, b) {
      ReachMono(e, f, a, x);
      ReachMono(e, f, y, b);
      ReachEdge(f, x, y);
      ReachTrans(f, a, x, y);
      ReachTrans(f, a, y, b);
    }
  }

  /** The exact condition under which a new edge keeps an acyclic graph acyclic. */
  lemma AcyclicAddEdge(e: Edges, x: int, y: int)
    requires Acyclic(e)
    ensures Acyclic(e + {(x, y)}) <==> !Reach(e, y, x)
  {
    var f := e + {(x, y)};
    if Reach(e, y, x) {
      ReachMono(e, f, y, x);
      assert (x, y) in f;
    } else {
      forall a, b | (a, b) in f ensures !Reach(f, b, a) {
        ReachAddEdge(e, x, y, b, a);
        if (a, b) in e {
          if Reach(e, b, x) && Reach(e, y, a) {
            ReachEdge(e, a, b);
            ReachTrans(e, y, a, b);
            ReachTrans(e, y, b, x);
          }
        } else {
          ReachRefl(e, x);
          ReachRefl(e, y);
        }
      }
    }
  }

  /** A path written out as the sequence of nodes it visits. */
  ghost predicate IsPath(e: Edges, p: seq<int>) {
    |p| > 0 && forall i, j :: 0 <= i && j == i + 1 && j < |p| ==> (p[i], p[j]) in e
  }

  lemma {:induction false} PathReach(e: Edges, p: seq<int>, i: nat, j: nat)
    requires IsPath(e, p) && i <= j < |p|
    ensures Reach(e, p[i], p[j])
    decreases j - i
  {
    if i == j {
      ReachRefl(e, p[i]);
    } else {
      PathReach(e, p, i, j - 1);
      assert (p[j - 1], p[j]) in e;
      ReachEdge(e, p[j - 1], p[j]);
      ReachTrans(e, p[i], p[j - 1], p[j]);
    }
  }

  ghost predicate Joins(e: Edges, p: seq<int>, a: int, b: int) {
    IsPath(e, p) && p[0] == a && p[|p| - 1] == b
  }

  ghost predicate Joined(e: Edges, a: int, b: int) {
    exists p :: Joins(e, p, a, b)
  }

  /** Reachability is existence of a path. */
  lemma ReachIsPath(e: Edges, a: int, b: int)
    ensures Reach(e, a, b) <==> Joined(e, a, b)
  {
    if Joined(e, a, b) {
      var p :| Joins(e, p, a, b);
      PathReach(e, p, 0, |p| - 1);
    }
    if Reach(e, a, b) {
      var s := iset v | Joined(e, a, v);
      forall u, v | (u, v) in e && u in s ensures v in s {
        var p :| Joins(e, p, a, u);
        assert Joins(e, p + [v], a, v);
      }
      assert Joins(e, [a], a, a);
      ClosedReach(e, s, a, b);
    }
  }

  /** In an acyclic graph no path visits a node twice. */
  lemma AcyclicPathSimple(e: Edges, p: seq<int>)
    requires Acyclic(e) && IsPath(e, p)
    ensures Distinct(p)
  {
    forall i, j | 0 <= i < j < |p| ensures p[i] != p[j] {
      PathReach(e, p, i + 1, j);
      assert (p[i], p[i + 1]) in e;
    }
  }

  /** The graph without the edges at node `v`. */
  ghost function Detached(e: Edges, v: int): Edges {
    set p | p in e && p.0 != v && p.1 != v
  }

  lemma DetachedEdges(e: Edges, v: int)
    ensures forall a, b :: (a, b) in Detached(e, v) <==> (a, b) in e && a != v && b != v
  {
    forall a: int, b: int ensures (a, b) in Detached(e, v) <==> (a, b) in e && a != v && b != v {
      assert (a, b).0 == a && (a, b).1 == b;
    }
  }

  /** Every edge joins two of the nodes 0..n-1. */
  ghost predicate Within(e: Edges, n: nat) {
    forall p :: p in e ==> 0 <= p.0 < n && 0 <= p.1 < n
  }

  /** The graph with every node renamed by `f`. */
  ghost function Rename(e: Edges, f: seq<int>): (r: Edges)
    requires Within(e, |f|)
  {
    set p | p in e :: (f[p.0], f[p.1])
  }

  /** The elements are pairwise different. */
  ghost predicate Distinct(f: seq<int>) {
    forall i, j :: 0 <= i < |f| && 0 <= j < |f| && f[i] == f[j] ==> i == j
  }

  lemma RenameEdge(e: Edges, f: seq<int>, a: int, b: int)
    requires Within(e, |f|)
    requires Distinct(f) && 0 <= a < |f| && 0 <= b < |f|
    ensures (f[a], f[b]) in Rename(e, f) <==> (a, b) in e
  {
    if (a, b) in e {
      assert (f[(a, b).0], f[(a, b).1]) in Rename(e, f);
    }
  }

  /** Renaming nodes injectively does not change who reaches whom. */
  lemma RenameReach(e: Edges, f: seq<int>, a: int, b: int)
    requires Within(e, |f|)
    requires Distinct(f) && 0 <= a < |f| && 0 <= b < |f|
    ensures Reach(Rename(e, f), f[a], f[b]) <==> Reach(e, a, b)
  {
    var g := Rename(e, f);
    if Reach(e, a, b) {
      var s := iset v | 0 <= v < |f| && Reach(g, f[a], f[v]);
      forall u, v | (u, v) in e && u in s ensures v in s {
        RenameEdge(e, f, u, v);
        ReachEdge(g, f[u], f[v]);
        ReachTrans(g, f[a], f[u], f[v]);
      }
      ReachRefl(g, f[a]);
      ClosedReach(e, s, a, b);
    }
    if Reach(g, f[a], f[b]) {
      var s := iset v | 0 <= v < |f| && Reach(e, a, v) :: f[v];
      forall u, v | (u, v) in g && u in s ensures v in s {
        var p :| p in e && (f[p.0], f[p.1]) == (u, v);
        assert (p.0, p.1) in e;
        ReachEdge(e, p.0, p.1);
        ReachTrans(e, a, p.0, p.1);
      }
      ReachRefl(e, a);
      ClosedReach(g, s, f[a], f[b]);
    }
  }
}
