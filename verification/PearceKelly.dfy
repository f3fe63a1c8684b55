/** The dynamic topological order: which nodes a new edge x -> y affects, and their new ranks. */
module PearceKelly {
  import opened Digraphs

  /** The ranks in use are 0..n-1, each once. */
  ghost predicate Permutation(r: seq<int>) {
    && (forall i :: 0 <= i < |r| ==> 0 <= r[i] < |r|)
    && Distinct(r)
  }

  /** `e` together with ranks `r` is a topologically ordered graph that edge x -> y would violate. */
  ghost predicate Violated(e: Edges, r: seq<int>, x: int, y: int) {
    Increasing(e, r) && Permutation(r) && 0 <= x < |r| && 0 <= y < |r| && r[y] < r[x]
  }

  /** The nodes reachable from y that rank below x. */
  ghost predicate IsForward(e: Edges, r: seq<int>, x: int, y: int, f: seq<int>)
    requires 0 <= x < |r|
  {
    forall v :: v in f <==> 0 <= v < |r| && Reach(e, y, v) && r[v] < r[x]
  }

  /** The nodes that reach x and rank above y. */
  ghost predicate IsBackward(e: Edges, r: seq<int>, x: int, y: int, b: seq<int>)
    requires 0 <= y < |r|
  {
    forall v :: v in b <==> 0 <= v < |r| && Reach(e, v, x) && r[y] < r[v]
  }

  /** A forward search that met no node of x's rank has found everything reachable below x. */
  lemma ForwardComplete(e: Edges, r: seq<int>, x: int, y: int, f: seq<int>)
    requires Violated(e, r, x, y) && y in f
    requires forall v :: v in f ==> 0 <= v < |r| && r[v] < r[x] && Reach(e, y, v)
    requires forall u, w :: u in f && (u, w) in e ==> r[w] != r[x] && (r[w] < r[x] ==> w in f)
    ensures !Reach(e, y, x) && IsForward(e, r, x, y, f)
  {
    var s := iset v | v in f || (0 <= v < |r| && r[x] < r[v]);
    forall v | Reach(e, y, v) ensures v in s {
      ClosedReach(e, s, y, v);
    }
  }

  /** A backward search finds everything that reaches x above y; it never meets the forward set. */
  lemma BackwardComplete(e: Edges, r: seq<int>, x: int, y: int, b: seq<int>)
    requires Violated(e, r, x, y) && x in b
    requires forall v :: v in b ==> 0 <= v < |r| && r[y] < r[v] && Reach(e, v, x)
    requires forall u, w :: u in b && (w, u) in e && r[y] < r[w] ==> w in b
    ensures IsBackward(e, r, x, y, b)
  {
    forall v | 0 <= v < |r| && Reach(e, v, x) && r[y] < r[v] ensures v in b {
      var s := iset w | 0 <= w < |r| && r[y] < r[w] && w !in b;
      if v !in b {
        ClosedReach(e, s, v, x);
      }
    }
  }

  /** Strictly increasing. */
  ghost predicate Ascending(s: seq<int>) {
    forall i, j :: 0 <= i < j < |s| ==> s[i] < s[j]
  }

  lemma AscendingIndices(s: seq<int>, i: nat, j: nat)
    requires Ascending(s) && i < |s| && j < |s| && s[i] < s[j]
    ensures i < j
  {
  }

  /** The two-way merge of the standard library. */
  function Merge(a: seq<int>, b: seq<int>): (m: seq<int>)
    ensures |m| == |a| + |b|
  {
    if a == [] then b
    else if b == [] then a
    else if b[0] < a[0] then [b[0]] + Merge(a, b[1..])
    else [a[0]] + Merge(a[1..], b)
  }

  lemma {:induction false} MergeElements(a: seq<int>, b: seq<int>, v: int)
    ensures v in Merge(a, b) <==> v in a || v in b
  {
    if a != [] && b != [] {
      if b[0] < a[0] {
        MergeElements(a, b[1..], v);
        assert b == [b[0]] + b[1..];
      } else {
        MergeElements(a[1..], b, v);
        assert a == [a[0]] + a[1..];
      }
    }
  }

  lemma PrependAscending(v: int, s: seq<int>)
    requires Ascending(s) && forall w :: w in s ==> v < w
    ensures Ascending([v] + s)
  {
    forall j | 0 <= j < |s| ensures v < s[j] {
      assert s[j] in s;
    }
  }

  lemma {:induction false} MergeAscending(a: seq<int>, b: seq<int>)
    requires Ascending(a) && Ascending(b) && forall v :: v in a ==> v !in b
    ensures Ascending(Merge(a, b))
  {
    if a != [] && b != [] {
      assert a[0] in a && b[0] in b;
      if b[0] < a[0] {
        MergeAscending(a, b[1..]);
        forall w | w in Merge(a, b[1..]) ensures b[0] < w { MergeElements(a, b[1..], w); }
        PrependAscending(b[0], Merge(a, b[1..]));
      } else {
        MergeAscending(a[1..], b);
        forall w | w in Merge(a[1..], b) ensures a[0] < w { MergeElements(a[1..], b, w); }
        PrependAscending(a[0], Merge(a[1..], b));
      }
    }
  }

  /** The i-th smallest of the merge is no larger than the i-th smallest of the first sequence. */
  lemma {:induction false} MergeBelow(a: seq<int>, b: seq<int>, i: nat)
    requires Ascending(a) && Ascending(b) && i < |a|
    ensures Merge(a, b)[i] <= a[i]
  {
    if b != [] {
      if b[0] < a[0] {
        if i > 0 { MergeBelow(a, b[1..], i - 1); }
      } else if i > 0 {
        MergeBelow(a[1..], b, i - 1);
      }
    }
  }

  /** From the end, the merge is no smaller than the second sequence. */
  lemma {:induction false} MergeAbove(a: seq<int>, b: seq<int>, i: nat)
    requires Ascending(a) && Ascending(b) && i < |b|
    ensures b[i] <= Merge(a, b)[|a| + i]
  {
    if a != [] {
      if b[0] < a[0] {
        if i > 0 {
          MergeAbove(a, b[1..], i - 1);
        } else {
          var k := Merge(a, b[1..])[|a| - 1];
          MergeElements(a, b[1..], k);
          assert k in Merge(a, b[1..]);
          assert Merge(a, b)[|a|] == k;
        }
      } else {
        MergeAbove(a[1..], b, i);
      }
    }
  }

  ghost predicate Valid(r: seq<int>, s: seq<int>) {
    forall i :: 0 <= i < |s| ==> 0 <= s[i] < |r|
  }

  /** The ranks of the listed nodes. */
  function Gather(r: seq<int>, s: seq<int>): (g: seq<int>)
    requires Valid(r, s)
    ensures |g| == |s| && forall i :: 0 <= i < |s| ==> g[i] == r[s[i]]
  {
    seq(|s|, i requires 0 <= i < |s| => r[s[i]])
  }

  /** Insertion into a list sorted by rank. */
  function Insert(r: seq<int>, v: int, s: seq<int>): (t: seq<int>)
    requires 0 <= v < |r| && Valid(r, s)
    ensures |t| == |s| + 1 && (forall w :: w in t <==> w == v || w in s) && Valid(r, t)
  {
    if s == [] || r[v] < r[s[0]] then [v] + s
    else
      var t := [s[0]] + Insert(r, v, s[1..]);
      assert s == [s[0]] + s[1..];
      t
  }

  /** The library sort, with comparison of ranks. */
  function SortByRank(r: seq<int>, s: seq<int>): (t: seq<int>)
    requires Valid(r, s)
    ensures |t| == |s| && (forall w :: w in t <==> w in s) && Valid(r, t)
  {
    if s == [] then []
    else
      assert s == [s[0]] + s[1..];
      Insert(r, s[0], SortByRank(r, s[1..]))
  }

  lemma InsertLowest(r: seq<int>, v: int, s: seq<int>)
    requires 0 <= v < |r| && Valid(r, s) && Ascending(Gather(r, s)) && forall w :: w in s ==> r[v] < r[w]
    ensures Ascending(Gather(r, [v] + s))
  {
    assert Gather(r, [v] + s) == [r[v]] + Gather(r, s);
    forall g | g in Gather(r, s) ensures r[v] < g {
      var k :| 0 <= k < |s| && Gather(r, s)[k] == g;
      assert s[k] in s;
    }
    PrependAscending(r[v], Gather(r, s));
  }

  lemma TailAbove(r: seq<int>, s: seq<int>)
    requires Valid(r, s) && s != [] && Ascending(Gather(r, s))
    ensures Ascending(Gather(r, s[1..])) && forall w :: w in s[1..] ==> r[s[0]] < r[w]
  {
    assert Gather(r, s[1..]) == Gather(r, s)[1..];
    forall w | w in s[1..] ensures r[s[0]] < r[w] {
      var m :| 0 <= m < |s[1..]| && s[1..][m] == w;
      assert Gather(r, s)[0] < Gather(r, s)[m + 1];
    }
  }

  lemma {:induction false} InsertAscending(r: seq<int>, v: int, s: seq<int>)
    requires 0 <= v < |r| && Valid(r, s) && Distinct(r) && v !in s && Ascending(Gather(r, s))
    ensures Ascending(Gather(r, Insert(r, v, s)))
  {
    if s == [] {
    } else {
      TailAbove(r, s);
      if r[v] < r[s[0]] {
        assert s == [s[0]] + s[1..];
        InsertLowest(r, v, s);
      } else {
        assert s[0] in s && r[s[0]] < r[v];
        InsertAscending(r, v, s[1..]);
        InsertLowest(r, s[0], Insert(r, v, s[1..]));
      }
    }
  }

  /** Nodes have distinct ranks, so sorting a duplicate-free list orders it strictly. */
  lemma {:induction false} SortAscending(r: seq<int>, s: seq<int>)
    requires Valid(r, s) && Distinct(r) && Distinct(s)
    ensures Ascending(Gather(r, SortByRank(r, s)))
  {
    if s != [] {
      SortAscending(r, s[1..]);
      InsertAscending(r, s[0], SortByRank(r, s[1..]));
    }
  }

  /** `r'` is `r` with the listed nodes renumbered to `m`, in this order. */
  ghost predicate Renumbered(r: seq<int>, r': seq<int>, s: seq<int>, m: seq<int>) {
    && |r'| == |r| && |m| == |s| && Valid(r, s)
    && (forall i :: 0 <= i < |s| ==> r'[s[i]] == m[i])
    && (forall v :: 0 <= v < |r| && v !in s ==> r'[v] == r[v])
  }

  /** Both searches are complete and sorted by rank. */
  ghost predicate Arranged(e: Edges, r: seq<int>, x: int, y: int, bs: seq<int>, fs: seq<int>) {
    && Violated(e, r, x, y) && !Reach(e, y, x)
    && Valid(r, bs) && Valid(r, fs) && Ascending(Gather(r, bs)) && Ascending(Gather(r, fs))
    && IsBackward(e, r, x, y, bs) && IsForward(e, r, x, y, fs)
  }

  /** The situation after reordering: the ranks of both searches pooled and dealt out again. */
  ghost predicate Reordered(e: Edges, r: seq<int>, x: int, y: int, bs: seq<int>, fs: seq<int>, r': seq<int>) {
    Arranged(e, r, x, y, bs, fs) && Renumbered(r, r', bs + fs, Pool(r, bs, fs))
  }

  lemma SearchesDisjoint(e: Edges, r: seq<int>, x: int, y: int, bs: seq<int>, fs: seq<int>, r': seq<int>)
    requires Reordered(e, r, x, y, bs, fs, r')
    ensures forall u, v :: u in bs && v in fs ==> u != v && r[u] != r[v]
  {
    forall u, v | u in bs && v in fs ensures u != v {
      if u == v {
          ReachTrans(e, y, u, x);
      }
    }
  }

  /** The pooled ranks, in the order in which they are dealt out. */
  function Pool(r: seq<int>, bs: seq<int>, fs: seq<int>): seq<int>
    requires Valid(r, bs) && Valid(r, fs)
  {
    Merge(Gather(r, bs), Gather(r, fs))
  }

  lemma PoolAscending(e: Edges, r: seq<int>, x: int, y: int, bs: seq<int>, fs: seq<int>, r': seq<int>)
    requires Reordered(e, r, x, y, bs, fs, r')
    ensures Ascending(Pool(r, bs, fs))
  {
    var gb, gf := Gather(r, bs), Gather(r, fs);
    SearchesDisjoint(e, r, x, y, bs, fs, r');
    forall k | k in gb ensures k !in gf {
      var i :| 0 <= i < |gb| && gb[i] == k;
      assert bs[i] in bs;
      forall j | 0 <= j < |gf| ensures gf[j] != k {
        assert fs[j] in fs;
      }
    }
    MergeAscending(gb, gf);
  }

  /** Which of the pooled ranks an affected node receives. */
  lemma Receives(r: seq<int>, bs: seq<int>, fs: seq<int>, r': seq<int>, v: int) returns (k: nat)
    requires Valid(r, bs) && Valid(r, fs) && Ascending(Gather(r, bs)) && Ascending(Gather(r, fs))
    requires Renumbered(r, r', bs + fs, Pool(r, bs, fs)) && (v in bs || v in fs)
    ensures k < |bs| + |fs| && r'[v] == Pool(r, bs, fs)[k]
    ensures if v in bs then k < |bs| && bs[k] == v && r'[v] <= r[v]
            else k >= |bs| && fs[k - |bs|] == v && r[v] <= r'[v]
  {
    var s := bs + fs;
    if v in bs {
      k :| 0 <= k < |bs| && bs[k] == v;
      MergeBelow(Gather(r, bs), Gather(r, fs), k);
    } else {
      var i :| 0 <= i < |fs| && fs[i] == v;
      k := |bs| + i;
      MergeAbove(Gather(r, bs), Gather(r, fs), i);
    }
    assert s[k] == v;
  }

  /** The new ranks of the affected nodes are their old ranks, so they stay between those of y and x. */
  lemma Pooled(e: Edges, r: seq<int>, x: int, y: int, bs: seq<int>, fs: seq<int>, r': seq<int>, v: int)
    requires Reordered(e, r, x, y, bs, fs, r') && v in bs + fs
    ensures exists w :: w in bs + fs && 0 <= w < |r| && r'[v] == r[w]
    ensures r[y] <= r'[v] <= r[x]
  {
    var m := Pool(r, bs, fs);
    var i := Receives(r, bs, fs, r', v);
    assert m[i] in m;
    MergeElements(Gather(r, bs), Gather(r, fs), m[i]);
    var w: int;
    if m[i] in Gather(r, bs) {
      var k :| 0 <= k < |bs| && Gather(r, bs)[k] == m[i];
      w := bs[k];
      assert w in bs;
      IncreasingReach(e, r, w, x);
    } else {
      var k :| 0 <= k < |fs| && Gather(r, fs)[k] == m[i];
      w := fs[k];
      assert w in fs;
      IncreasingReach(e, r, y, w);
    }
    assert w in bs + fs;
  }

  /** Order within one search is kept, and every backward node ends below every forward one. */
  lemma Relative(e: Edges, r: seq<int>, x: int, y: int, bs: seq<int>, fs: seq<int>, r': seq<int>, u: int, v: int)
    requires Reordered(e, r, x, y, bs, fs, r')
    requires (u in bs && v in fs) || (u in bs && v in bs && r[u] < r[v]) || (u in fs && v in fs && r[u] < r[v])
    ensures r'[u] < r'[v]
  {
    PoolAscending(e, r, x, y, bs, fs, r');
    SearchesDisjoint(e, r, x, y, bs, fs, r');
    var k := Receives(r, bs, fs, r', u);
    var l := Receives(r, bs, fs, r', v);
    if v in fs {
      assert v !in bs;
      if u in fs {
        assert u !in bs;
        AscendingIndices(Gather(r, fs), k - |bs|, l - |bs|);
      }
    } else {
      AscendingIndices(Gather(r, bs), k, l);
    }
  }

  /** Backward nodes do not move up, forward nodes do not move down, others do not move. */
  lemma Direction(e: Edges, r: seq<int>, x: int, y: int, bs: seq<int>, fs: seq<int>, r': seq<int>, v: int)
    requires Reordered(e, r, x, y, bs, fs, r') && 0 <= v < |r|
    ensures v !in bs ==> r[v] <= r'[v]
    ensures v !in fs ==> r'[v] <= r[v]
  {
    if v in bs || v in fs {
      var k := Receives(r, bs, fs, r', v);
      SearchesDisjoint(e, r, x, y, bs, fs, r');
    }
  }

  /** No edge points the wrong way afterwards. */
  lemma EdgeOrdered(e: Edges, r: seq<int>, x: int, y: int, bs: seq<int>, fs: seq<int>, r': seq<int>, u: int, v: int)
    requires Reordered(e, r, x, y, bs, fs, r') && (u, v) in e
    ensures r'[u] < r'[v]
  {
    ReachEdge(e, u, v);
    if u in fs {
      ReachTrans(e, y, u, v);
      if v in fs {
        Relative(e, r, x, y, bs, fs, r', u, v);
      } else {
        Pooled(e, r, x, y, bs, fs, r', u);
        if v in bs { ReachTrans(e, y, v, x); }
        assert v !in bs + fs && v != x;
      }
    } else if v in bs {
      ReachTrans(e, u, v, x);
      if u in bs {
        Relative(e, r, x, y, bs, fs, r', u, v);
      } else {
        Pooled(e, r, x, y, bs, fs, r', v);
        assert u !in bs + fs && u != y;
      }
    } else {
      Direction(e, r, x, y, bs, fs, r', u);
      Direction(e, r, x, y, bs, fs, r', v);
    }
  }

  /** The new edge itself is in order. */
  lemma NewEdgeOrdered(e: Edges, r: seq<int>, x: int, y: int, bs: seq<int>, fs: seq<int>, r': seq<int>)
    requires Reordered(e, r, x, y, bs, fs, r')
    ensures r'[x] < r'[y]
  {
    ReachRefl(e, x);
    ReachRefl(e, y);
    Relative(e, r, x, y, bs, fs, r', x, y);
  }

  lemma DealtOutOnce(e: Edges, r: seq<int>, x: int, y: int, bs: seq<int>, fs: seq<int>, r': seq<int>)
    requires Reordered(e, r, x, y, bs, fs, r')
    ensures Permutation(r')
  {
    var s := bs + fs;
    PoolAscending(e, r, x, y, bs, fs, r');
    forall i | 0 <= i < |r| ensures 0 <= r'[i] < |r| {
      if i in s { Pooled(e, r, x, y, bs, fs, r', i); }
    }
    forall i, j | 0 <= i < |r| && 0 <= j < |r| && r'[i] == r'[j] ensures i == j {
      if i in s && j in s {
        var k := Receives(r, bs, fs, r', i);
        var l := Receives(r, bs, fs, r', j);
        assert k == l;
      } else if i in s {
        Pooled(e, r, x, y, bs, fs, r', i);
      } else if j in s {
        Pooled(e, r, x, y, bs, fs, r', j);
      }
    }
  }

  /** Reordering is correct: every edge and the new one go up, the ranks are a permutation again, and
      no node that ranked outside the range from y to x has moved. */
  lemma ReorderCorrect(e: Edges, r: seq<int>, x: int, y: int, bs: seq<int>, fs: seq<int>, r': seq<int>)
    requires Reordered(e, r, x, y, bs, fs, r')
    ensures Increasing(e + {(x, y)}, r') && Permutation(r')
    ensures forall v :: 0 <= v < |r| && !(r[y] <= r[v] <= r[x]) ==> r'[v] == r[v]
  {
    forall u, v | (u, v) in e ensures r'[u] < r'[v] {
      EdgeOrdered(e, r, x, y, bs, fs, r', u, v);
    }
    NewEdgeOrdered(e, r, x, y, bs, fs, r');
    DealtOutOnce(e, r, x, y, bs, fs, r');
    forall v | 0 <= v < |r| && !(r[y] <= r[v] <= r[x]) ensures r'[v] == r[v] {
      if Reach(e, v, x) { IncreasingReach(e, r, v, x); }
      if Reach(e, y, v) { IncreasingReach(e, r, y, v); }
      assert v !in bs + fs;
    }
  }
}
