/** Graph nodes and the hash table that finds a node from its user-supplied pointer. */
module GraphNodes {
  import opened Digraphs
  import opened GraphIds
  import opened NodeSets

  /** Addresses; 0 is the null pointer. */
  type Ptr = nat

  /** One node record. Its two neighbour sets are objects of their own. */
  datatype Node = Node(rank: int, version: nat, nextHash: int, visited: bool, maskedPtr: Ptr, ins: NodeSet, outs: NodeSet)

  /** The node vector, which the graph and its pointer map share. */
  class NodeVec {
    var at: seq<Node>

    constructor ()
      ensures at == []
    {
      at := [];
    }
  }

  /** The present id of node `i`. */
  function IdAt(at: seq<Node>, i: int): Id
    requires 0 <= i < |at|
  {
    MakeId(i, at[i].version)
  }

  ghost function Ids(at: seq<Node>): (s: seq<Id>)
    ensures |s| == |at| && forall i :: 0 <= i < |at| ==> s[i] == IdAt(at, i)
  {
    seq(|at|, i requires 0 <= i < |at| => IdAt(at, i))
  }

  const BUCKETS := 8171

  function Bucket(p: Ptr): (b: nat)
    ensures b < BUCKETS
  {
    p % BUCKETS
  }

  /** Element `k` of a chain, or the end marker. */
  ghost function At(chain: seq<int>, k: nat): int {
    if k < |chain| then chain[k] else -1
  }

  ghost function Links(at: seq<Node>): (s: seq<int>)
    ensures |s| == |at| && forall i :: 0 <= i < |s| ==> s[i] == at[i].nextHash
  {
    seq(|at|, i requires 0 <= i < |at| => at[i].nextHash)
  }

  ghost function Ptrs(at: seq<Node>): (s: seq<Ptr>)
    ensures |s| == |at| && forall i :: 0 <= i < |s| ==> s[i] == at[i].maskedPtr
  {
    seq(|at|, i requires 0 <= i < |at| => at[i].maskedPtr)
  }

  /** The node records differ in nothing but their hash links. */
  ghost predicate OnlyLinksDiffer(a: seq<Node>, b: seq<Node>) {
    |a| == |b| && forall i :: 0 <= i < |a| ==> b[i] == a[i].(nextHash := b[i].nextHash)
  }

  /** `links` threads exactly the nodes of `chain`, in order, from `head` to the end marker. */
  ghost predicate Threaded(chain: seq<int>, head: int, links: seq<int>) {
    && Distinct(chain)
    && (forall k :: 0 <= k < |chain| ==> 0 <= chain[k] < |links|)
    && (if chain == [] then head == -1 else head == chain[0] && links[chain[|chain| - 1]] == -1)
    && (forall k, m :: 0 <= k < m < |chain| && m == k + 1 ==> links[chain[k]] == chain[m])
  }

  /** The elements of `chain` are exactly the members that belong to bucket `b`. */
  ghost predicate Lists(chain: seq<int>, b: nat, ptrs: seq<Ptr>, members: set<int>) {
    && (forall k :: 0 <= k < |chain| ==> 0 <= chain[k] < |ptrs| && chain[k] in members && Bucket(ptrs[chain[k]]) == b)
    && (forall c :: c in members && 0 <= c < |ptrs| && Bucket(ptrs[c]) == b ==> c in chain)
  }

  /** `chain` is the list of the members that belong to bucket `b`. */
  ghost predicate IsChain(chain: seq<int>, b: nat, head: int, links: seq<int>, ptrs: seq<Ptr>, members: set<int>) {
    |links| == |ptrs| && Threaded(chain, head, links) && Lists(chain, b, ptrs, members)
  }

  /** Everything the pointer map consists of, including the fields that live in the nodes. */
  datatype Table = Table(chains: seq<seq<int>>, heads: seq<int>, links: seq<int>, ptrs: seq<Ptr>, members: set<int>)

  ghost predicate IsTable(t: Table) {
    match t case Table(chains, heads, links, ptrs, members) =>
    && |chains| == |heads| == BUCKETS && |links| == |ptrs|
    && (forall b :: 0 <= b < BUCKETS ==> IsChain(chains[b], b, heads[b], links, ptrs, members))
    && (forall c :: c in members ==> 0 <= c < |ptrs|)
    && (forall c, d :: c in members && d in members && ptrs[c] == ptrs[d] ==> c == d)
  }

  /** A chain is unaffected by changes to nodes of other buckets. */
  lemma ChainFrame(chain: seq<int>, b: nat, head: int, links: seq<int>, links': seq<int>, ptrs: seq<Ptr>,
                   members: set<int>, members': set<int>)
    requires IsChain(chain, b, head, links, ptrs, members) && |links'| == |links|
    requires forall c :: 0 <= c < |links| && Bucket(ptrs[c]) == b ==> links'[c] == links[c] && (c in members <==> c in members')
    ensures IsChain(chain, b, head, links', ptrs, members')
  {
  }

  lemma ChainAdd(chain: seq<int>, b: nat, head: int, links: seq<int>, ptrs: seq<Ptr>, members: set<int>, i: int)
    requires IsChain(chain, b, head, links, ptrs, members)
    requires 0 <= i < |links| && i !in members && Bucket(ptrs[i]) == b
    ensures IsChain([i] + chain, b, i, links[i := head], ptrs, members + {i})
  {
    var chain', links' := [i] + chain, links[i := head];
    assert forall k :: 0 <= k < |chain'| ==> chain'[k] == if k == 0 then i else chain[k - 1];
    forall c | c in members + {i} && 0 <= c < |ptrs| && Bucket(ptrs[c]) == b ensures c in chain' {
      if c == i { assert chain'[0] == i; }
    }
  }

  /** Elements of a list without its element `k`. */
  ghost function Without(chain: seq<int>, k: nat): (rest: seq<int>)
    requires k < |chain|
    ensures |rest| == |chain| - 1
    ensures forall m :: 0 <= m < |rest| ==> rest[m] == if m < k then chain[m] else chain[m + 1]
  {
    chain[..k] + chain[k + 1..]
  }

  /** The links after the predecessor of element `k` has been pointed past it. */
  ghost function Bypassed(chain: seq<int>, links: seq<int>, k: nat): (links': seq<int>)
    requires k < |chain| && 0 <= chain[k] < |links| && (k > 0 ==> 0 <= chain[k - 1] < |links|)
    ensures |links'| == |links|
  {
    (if k == 0 then links else links[chain[k - 1] := links[chain[k]]])[chain[k] := -1]
  }

  lemma ThreadedRemove(chain: seq<int>, head: int, links: seq<int>, k: nat)
    requires Threaded(chain, head, links) && k < |chain|
    ensures Threaded(Without(chain, k), if k == 0 then links[chain[k]] else head, Bypassed(chain, links, k))
  {
    hide Distinct;
    var rest, links' := Without(chain, k), Bypassed(chain, links, k);
    WithoutDistinct(chain, k);
    forall m, o | 0 <= m < o < |rest| && o == m + 1 ensures links'[rest[m]] == rest[o] {
      BypassedLink(chain, head, links, k, m);
    }
    if rest != [] { BypassedEnd(chain, head, links, k); }
  }

  lemma WithoutDistinct(chain: seq<int>, k: nat)
    requires Distinct(chain) && k < |chain|
    ensures Distinct(Without(chain, k)) && forall m :: 0 <= m < |chain| && m != k ==> chain[m] != chain[k]
  {
  }

  lemma BypassedLink(chain: seq<int>, head: int, links: seq<int>, k: nat, m: nat)
    requires Threaded(chain, head, links) && k < |chain| && m + 1 < |chain| - 1
    ensures Bypassed(chain, links, k)[Without(chain, k)[m]] == Without(chain, k)[m + 1]
  {
    hide Distinct;
    WithoutDistinct(chain, k);
    var m', o' := if m < k then m else m + 1, if m + 1 < k then m + 1 else m + 2;
    assert chain[m'] != chain[k];
    if m' + 1 == o' { assert links[chain[m']] == chain[o']; }
  }

  lemma BypassedEnd(chain: seq<int>, head: int, links: seq<int>, k: nat)
    requires Threaded(chain, head, links) && k < |chain| && |chain| > 1
    ensures Bypassed(chain, links, k)[Without(chain, k)[|chain| - 2]] == -1
    ensures Without(chain, k)[0] == if k == 0 then links[chain[k]] else head
  {
    hide Distinct;
    WithoutDistinct(chain, k);
    var m' := if |chain| - 2 < k then |chain| - 2 else |chain| - 1;
    assert chain[m'] != chain[k];
  }

  lemma ListsRemove(chain: seq<int>, b: nat, ptrs: seq<Ptr>, members: set<int>, k: nat)
    requires Lists(chain, b, ptrs, members) && Distinct(chain) && k < |chain|
    ensures Lists(Without(chain, k), b, ptrs, members - {chain[k]})
  {
    var rest := Without(chain, k);
    forall c | c in members - {chain[k]} && 0 <= c < |ptrs| && Bucket(ptrs[c]) == b ensures c in rest {
      var m :| 0 <= m < |chain| && chain[m] == c;
      assert rest[if m < k then m else m - 1] == c;
    }
  }

  lemma ChainRemove(chain: seq<int>, b: nat, head: int, links: seq<int>, ptrs: seq<Ptr>, members: set<int>, k: nat)
    requires IsChain(chain, b, head, links, ptrs, members) && k < |chain|
    ensures IsChain(Without(chain, k), b, if k == 0 then links[chain[k]] else head, Bypassed(chain, links, k), ptrs, members - {chain[k]})
  {
    ThreadedRemove(chain, head, links, k);
    ListsRemove(chain, b, ptrs, members, k);
  }

  /** Replacing the chain of one bucket keeps the table, when no node of another bucket is touched. */
  lemma TableUpdate(t: Table, b: nat, chain': seq<int>, head': int, links': seq<int>, members': set<int>)
    requires IsTable(t) && b < BUCKETS && IsChain(chain', b, head', links', t.ptrs, members')
    requires forall c :: 0 <= c < |t.links| && Bucket(t.ptrs[c]) != b ==>
                           links'[c] == t.links[c] && (c in t.members <==> c in members')
    requires forall c :: c in members' ==> 0 <= c < |t.ptrs|
    requires forall c, d :: c in members' && d in members' && t.ptrs[c] == t.ptrs[d] ==> c == d
    ensures IsTable(Table(t.chains[b := chain'], t.heads[b := head'], links', t.ptrs, members'))
  {
    forall d | 0 <= d < BUCKETS && d != b ensures IsChain(t.chains[d], d, t.heads[d], links', t.ptrs, members') {
      ChainFrame(t.chains[d], d, t.heads[d], t.links, links', t.ptrs, t.members, members');
    }
  }

  /** Nodes outside the table may change, and new ones may be appended. */
  lemma TableFrame(t: Table, links': seq<int>, ptrs': seq<Ptr>)
    requires IsTable(t) && |t.links| <= |links'| == |ptrs'|
    requires forall c :: c in t.members ==> links'[c] == t.links[c] && ptrs'[c] == t.ptrs[c]
    ensures IsTable(t.(links := links', ptrs := ptrs'))
  {
    forall b | 0 <= b < BUCKETS ensures IsChain(t.chains[b], b, t.heads[b], links', ptrs', t.members) {
      assert IsChain(t.chains[b], b, t.heads[b], t.links, t.ptrs, t.members);
    }
  }

  /** The table with node `i` put at the head of its chain. */
  ghost function Added(t: Table, i: int): Table
    requires |t.chains| == |t.heads| == BUCKETS && 0 <= i < |t.ptrs| == |t.links|
  {
    var b := Bucket(t.ptrs[i]);
    Table(t.chains[b := [i] + t.chains[b]], t.heads[b := i], t.links[i := t.heads[b]], t.ptrs, t.members + {i})
  }

  lemma TableAdd(t: Table, i: int)
    requires IsTable(t) && i !in t.members && 0 <= i < |t.ptrs|
    requires forall c :: c in t.members ==> t.ptrs[c] != t.ptrs[i]
    ensures IsTable(Added(t, i))
  {
    var b := Bucket(t.ptrs[i]);
    ChainAdd(t.chains[b], b, t.heads[b], t.links, t.ptrs, t.members, i);
    TableUpdate(t, b, [i] + t.chains[b], i, t.links[i := t.heads[b]], t.members + {i});
  }

  /** The table without element `k` of the chain of bucket `b`. */
  ghost function Removed(t: Table, b: nat, k: nat): Table
    requires b < |t.chains| == |t.heads| && k < |t.chains[b]|
    requires 0 <= t.chains[b][k] < |t.links| && (k > 0 ==> 0 <= t.chains[b][k - 1] < |t.links|)
  {
    var chain := t.chains[b];
    Table(t.chains[b := Without(chain, k)], t.heads[b := if k == 0 then t.links[chain[k]] else t.heads[b]],
          Bypassed(chain, t.links, k), t.ptrs, t.members - {chain[k]})
  }

  lemma TableRemove(t: Table, b: nat, k: nat)
    requires IsTable(t) && b < BUCKETS && k < |t.chains[b]|
    ensures IsChain(t.chains[b], b, t.heads[b], t.links, t.ptrs, t.members)
    ensures IsTable(Removed(t, b, k))
  {
    hide Threaded, Distinct;
    var chain := t.chains[b];
    assert IsChain(chain, b, t.heads[b], t.links, t.ptrs, t.members);
    ChainRemove(chain, b, t.heads[b], t.links, t.ptrs, t.members, k);
    var links' := Bypassed(chain, t.links, k);
    forall c | 0 <= c < |t.links| && Bucket(t.ptrs[c]) != b ensures links'[c] == t.links[c] {
      assert Bucket(t.ptrs[chain[k]]) == b && (k > 0 ==> Bucket(t.ptrs[chain[k - 1]]) == b);
    }
    TableUpdate(t, b, Without(chain, k), if k == 0 then t.links[chain[k]] else t.heads[b], links', t.members - {chain[k]});
  }

  /** Bucket heads and the links that run through the nodes themselves. */
  class PointerMap {
    const nodes: NodeVec
    const table: array<int>

    /** The nodes on the chain of each bucket, first to last. */
    ghost var chains: seq<seq<int>>
    /** All nodes that are on a chain. */
    ghost var members: set<int>

    ghost function Snapshot(): Table
      reads this, table, nodes
    {
      Table(chains, table[..], Links(nodes.at), Ptrs(nodes.at), members)
    }

    ghost predicate Valid()
      reads this, table, nodes
    {
      table.Length == BUCKETS && IsTable(Snapshot())
    }

    constructor (nodes: NodeVec)
      requires nodes.at == []
      ensures Valid() && members == {} && fresh(table) && this.nodes == nodes
    {
      this.nodes := nodes;
      table := new int[BUCKETS](_ => -1);
      chains := seq(BUCKETS, _ => []);
      members := {};
    }

    /** The node whose pointer is `ptr`, or -1. */
    method Find(ptr: Ptr) returns (i: int)
      requires Valid()
      ensures i == -1 ==> forall c :: c in members ==> nodes.at[c].maskedPtr != ptr
      ensures i != -1 ==> i in members && nodes.at[i].maskedPtr == ptr
    {
      ghost var t := Snapshot();
      ghost var chain, k := chains[Bucket(ptr)], 0;
      assert IsChain(chain, Bucket(ptr), t.heads[Bucket(ptr)], t.links, t.ptrs, t.members);
      i := table[Bucket(ptr)];
      while i != -1
        invariant 0 <= k <= |chain| && i == At(chain, k)
        invariant forall m :: 0 <= m < k ==> t.ptrs[chain[m]] != ptr
        decreases |chain| - k
      {
        var n := nodes.at[i];
        if n.maskedPtr == ptr {
          return i;
        }
        i := n.nextHash;
        k := k + 1;
      }
    }

    /** Puts node `i`, whose pointer is new to the map, at the head of its chain. */
    method Add(ptr: Ptr, i: int)
      requires Valid() && 0 <= i < |nodes.at| && nodes.at[i].maskedPtr == ptr
      requires i !in members && forall c :: c in members ==> nodes.at[c].maskedPtr != ptr
      modifies this, table, nodes
      ensures Valid() && members == old(members) + {i} && OnlyLinksDiffer(old(nodes.at), nodes.at)
    {
      ghost var t := Snapshot();
      TableAdd(t, i);
      var b, at := Bucket(ptr), nodes.at;
      nodes.at := at[i := at[i].(nextHash := table[b])];
      table[b] := i;
      chains, members := t.chains[b := [i] + t.chains[b]], t.members + {i};
      assert table[..] == t.heads[b := i];
      assert Links(nodes.at) == t.links[i := t.heads[b]];
      assert Ptrs(nodes.at) == t.ptrs;
      assert Snapshot() == Added(t, i);
    }

    /** Changes the node vector, but for what the chains run through. */
    method Update(at: seq<Node>)
      requires Valid() && |nodes.at| <= |at|
      requires forall c :: c in members ==> at[c].nextHash == nodes.at[c].nextHash && at[c].maskedPtr == nodes.at[c].maskedPtr
      modifies nodes
      ensures Valid() && nodes.at == at
    {
      ghost var t := Snapshot();
      TableFrame(t, Links(at), Ptrs(at));
      nodes.at := at;
      assert Snapshot() == t.(links := Links(at), ptrs := Ptrs(at));
    }

    /** Stores the vector in which node `i` has received pointer `ptr`, and puts that node on its chain. */
    method Adopt(at: seq<Node>, ptr: Ptr, i: int)
      requires Valid() && |nodes.at| <= |at| && forall c :: c in members ==> at[c] == nodes.at[c] && at[c].maskedPtr != ptr
      requires 0 <= i < |at| && i !in members && at[i].maskedPtr == ptr
      modifies this, table, nodes
      ensures Valid() && members == old(members) + {i} && OnlyLinksDiffer(at, nodes.at)
    {
      Update(at);
      Add(ptr, i);
    }

    /** Makes the slot of node `prev`, or the head of bucket `b` when there is none, skip node `i`. */
    method Unlink(b: nat, prev: int, i: int, ghost k: nat)
      requires b < |chains| == table.Length && k < |chains[b]| && i == chains[b][k]
      requires prev == if k == 0 then -1 else chains[b][k - 1]
      requires 0 <= i < |nodes.at| && -1 <= prev < |nodes.at| && (k > 0 ==> prev >= 0)
      modifies this, table, nodes
      ensures Snapshot() == Removed(old(Snapshot()), b, k) && OnlyLinksDiffer(old(nodes.at), nodes.at)
    {
      ghost var t, chain := Snapshot(), chains[b];
      var at := nodes.at;
      var n := at[i];
      if prev == -1 {
        table[b] := n.nextHash;
      } else {
        at := at[prev := at[prev].(nextHash := n.nextHash)];
      }
      at := at[i := at[i].(nextHash := -1)];
      nodes.at := at;
      chains, members := t.chains[b := Without(chain, k)], t.members - {i};
      assert table[..] == t.heads[b := if k == 0 then t.links[i] else t.heads[b]];
      assert Links(nodes.at) == Bypassed(chain, t.links, k);
      assert Ptrs(nodes.at) == t.ptrs;
    }

    /** Unlinks the node whose pointer is `ptr` and returns it, or -1 when there is none. */
    method Remove(ptr: Ptr) returns (i: int)
      requires Valid()
      modifies this, table, nodes
      ensures Valid() && OnlyLinksDiffer(old(nodes.at), nodes.at)
      ensures i == -1 ==> members == old(members) && nodes.at == old(nodes.at) && forall c :: c in members ==> nodes.at[c].maskedPtr != ptr
      ensures i != -1 ==> i in old(members) && nodes.at[i].maskedPtr == ptr && members == old(members) - {i}
    {
      ghost var t := Snapshot();
      var b := Bucket(ptr);
      ghost var chain, k := chains[b], 0;
      assert IsChain(chain, b, t.heads[b], t.links, t.ptrs, t.members);
      var prev := -1;
      i := table[b];
      while i != -1
        invariant 0 <= k <= |chain| && i == At(chain, k) && prev == if k == 0 then -1 else chain[k - 1]
        invariant forall m :: 0 <= m < k ==> t.ptrs[chain[m]] != ptr
        decreases |chain| - k
      {
        var n := nodes.at[i];
        if n.maskedPtr == ptr {
          TableRemove(t, b, k);
          Unlink(b, prev, i, k);
          return;
        }
        prev, i, k := i, n.nextHash, k + 1;
      }
    }
  }
}
