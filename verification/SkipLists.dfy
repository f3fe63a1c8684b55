/** The free list of an arena: a skip list over block headers, in address order. */
module SkipLists {
  import opened BlockMaps

  const MAX_LEVEL := 30

  /** A block header. `levels` and `next` mean something only while the block is on the list. */
  datatype Block = Block(size: int, used: bool, levels: int, next: seq<int>)

  /** Block headers by address. No block is at address 0, which as a link is the null pointer and as an
      element is the head of the list. */
  type Memory = map<int, Block>

  const HEAD := 0

  function Link(mem: Memory, p: int, i: int): int {
    if p in mem && 0 <= i < |mem[p].next| then mem[p].next[i] else 0
  }

  function Levels(mem: Memory, p: int): int {
    if p in mem then mem[p].levels else 0
  }

  /** The elements that are linked at level `i`. */
  ghost function High(mem: Memory, listed: set<int>, i: int): set<int> {
    set p | p in listed && Levels(mem, p) > i
  }

  /** `q` is the first element of `s` after `p`, or null if there is none. */
  ghost predicate IsNext(s: set<int>, p: int, q: int) {
    (q == 0 || (q in s && p < q)) && forall r :: r in s && p < r ==> q != 0 && q <= r
  }

  /** Level `i` links exactly the elements of `s`, in address order. */
  ghost predicate Level(mem: Memory, s: set<int>, i: int) {
    IsNext(s, HEAD, Link(mem, HEAD, i)) && forall p :: p in s ==> IsNext(s, p, Link(mem, p, i))
  }

  /** Every element has as many links as levels; the head has room for all levels. */
  ghost predicate Shaped(mem: Memory, listed: set<int>) {
    && HEAD in mem && |mem[HEAD].next| == MAX_LEVEL && 0 <= mem[HEAD].levels < MAX_LEVEL
    && forall p :: p in listed ==> p > 0 && p in mem && 1 <= mem[p].levels < MAX_LEVEL && |mem[p].next| == mem[p].levels
  }

  ghost predicate Linked(mem: Memory, listed: set<int>) {
    Shaped(mem, listed) && forall i :: 0 <= i < MAX_LEVEL ==> Level(mem, High(mem, listed, i), i)
  }

  /** The head uses exactly as many levels as the tallest element. */
  ghost predicate Tight(mem: Memory, listed: set<int>) {
    && (forall p :: p in listed ==> Levels(mem, p) <= Levels(mem, HEAD))
    && (Levels(mem, HEAD) > 0 ==> exists p :: p in listed && Levels(mem, p) == Levels(mem, HEAD))
  }

  /** The memories differ in nothing but links. */
  ghost predicate OnlyLinksDiffer(m: Memory, n: Memory) {
    m.Keys == n.Keys && forall p :: p in m ==> n[p] == m[p].(next := n[p].next) && |n[p].next| == |m[p].next|
  }

  ghost predicate Positive(s: set<int>) {
    forall r :: r in s ==> r > 0
  }

  /** After inserting `e` right behind `p`. */
  lemma InsertedNext(s: set<int>, p: int, e: int, q: int)
    requires IsBefore(s, p, e) && Positive(s) && e > 0 && e !in s && IsNext(s, p, q)
    ensures IsNext(s + {e}, p, e) && IsNext(s + {e}, e, q)
  {
  }

  lemma OtherNextInserted(s: set<int>, p: int, e: int, r: int, w: int)
    requires IsBefore(s, p, e) && Positive(s) && e > 0 && e !in s && r != p && (r == HEAD || r in s) && IsNext(s, r, w)
    ensures IsNext(s + {e}, r, w)
  {
    if r < e { assert p in s && w <= p; }
  }

  lemma RemovedNext(s: set<int>, p: int, e: int, q: int)
    requires IsBefore(s, p, e) && Positive(s) && e in s && IsNext(s, e, q)
    ensures IsNext(s - {e}, p, q)
  {
  }

  lemma OtherNextRemoved(s: set<int>, p: int, e: int, r: int, w: int)
    requires IsBefore(s, p, e) && Positive(s) && e in s && r != p && r != e && (r == HEAD || r in s) && IsNext(s, r, w)
    ensures IsNext(s - {e}, r, w)
  {
    if r < e { assert p in s && w <= p; }
  }

  lemma BeforeNext(s: set<int>, p: int, e: int, q: int)
    requires IsBefore(s, p, e) && IsNext(s, p, q) && e in s
    ensures q == e
  {
  }

  /** The level has `e` inserted behind `p`, and no other link of it has changed. */
  lemma LevelInserted(m: Memory, n: Memory, s: set<int>, i: int, p: int, e: int)
    requires Level(m, s, i) && IsBefore(s, p, e) && e > 0 && e !in s && Positive(s)
    requires Spliced(m, n, p, e, i)
    ensures Level(n, s + {e}, i)
  {
    InsertedNext(s, p, e, Link(m, p, i));
    forall r | (r == HEAD || r in s) && r != p ensures IsNext(s + {e}, r, Link(n, r, i)) {
      OtherNextInserted(s, p, e, r, Link(m, r, i));
    }
  }

  lemma LevelRemoved(m: Memory, n: Memory, s: set<int>, i: int, p: int, e: int)
    requires Level(m, s, i) && IsBefore(s, p, e) && e > 0 && e in s && Positive(s)
    requires Link(n, p, i) == Link(m, e, i)
    requires forall r :: r != p && r != e ==> Link(n, r, i) == Link(m, r, i)
    ensures Level(n, s - {e}, i)
  {
    RemovedNext(s, p, e, Link(m, e, i));
    forall r | (r == HEAD || r in s) && r != p && r != e ensures IsNext(s - {e}, r, Link(n, r, i)) {
      OtherNextRemoved(s, p, e, r, Link(m, r, i));
    }
  }

  lemma LevelKept(m: Memory, n: Memory, s: set<int>, i: int)
    requires Level(m, s, i) && Link(n, HEAD, i) == Link(m, HEAD, i) && forall r :: r in s ==> Link(n, r, i) == Link(m, r, i)
    ensures Level(n, s, i)
  {
  }

  /** The header of `e` has been prepared for the list. */
  ghost predicate Insertable(mem: Memory, e: int) {
    e > 0 && e in mem && 1 <= mem[e].levels < MAX_LEVEL && |mem[e].next| == mem[e].levels
  }

  /** Blocks keep their sizes and states, and all but the head their levels. */
  ghost predicate SameBlocks(m: Memory, n: Memory) {
    m.Keys == n.Keys && forall p :: p in m ==> n[p].size == m[p].size && n[p].used == m[p].used && (p != HEAD ==> n[p].levels == m[p].levels)
  }

  lemma HasLink(m: Memory, n: Memory, listed: set<int>, p: int, i: int)
    requires Shaped(m, listed) && OnlyLinksDiffer(m, n) && 0 <= i < MAX_LEVEL && (p == HEAD || p in High(m, listed, i))
    ensures p in n && i < |n[p].next|
  {
  }

  lemma HighPositive(m: Memory, listed: set<int>, i: int)
    requires Shaped(m, listed)
    ensures Positive(High(m, listed, i)) && High(m, listed, i) <= listed
  {
  }

  /** `e` now follows `p` at level `i`, and no other link differs. */
  ghost predicate Spliced(m: Memory, n: Memory, p: int, e: int, i: int) {
    && Link(n, e, i) == Link(m, p, i) && Link(n, p, i) == e
    && (forall r :: r != p && r != e ==> Link(n, r, i) == Link(m, r, i))
    && (forall r, j :: j != i ==> Link(n, r, j) == Link(m, r, j))
  }

  /** Raising the head changes no level. */
  lemma HeadRaised(m: Memory, n: Memory, listed: set<int>, e: int)
    requires Linked(m, listed) && Tight(m, listed) && Insertable(m, e) && n == m[HEAD := m[HEAD].(levels := Levels(n, HEAD))]
    requires Levels(n, HEAD) == if m[HEAD].levels < m[e].levels then m[e].levels else m[HEAD].levels
    ensures Linked(n, listed) && Insertable(n, e) && SameBlocks(m, n)
    ensures forall p :: p in listed + {e} ==> Levels(n, p) <= Levels(n, HEAD)
    ensures exists p :: p in listed + {e} && Levels(n, p) == Levels(n, HEAD)
  {
    if m[HEAD].levels <= m[e].levels {
      assert e in listed + {e} && Levels(n, e) == Levels(n, HEAD);
    } else {
      var p :| p in listed && Levels(m, p) == Levels(m, HEAD);
      assert p in listed + {e} && Levels(n, p) == Levels(n, HEAD);
    }
    forall i | 0 <= i < MAX_LEVEL ensures Level(n, High(n, listed, i), i) {
      assert High(n, listed, i) == High(m, listed, i);
      LevelKept(m, n, High(m, listed, i), i);
    }
  }

  lemma ListInserted(m: Memory, n: Memory, listed: set<int>, e: int)
    requires Shaped(m, listed) && Insertable(m, e) && OnlyLinksDiffer(m, n) && e !in listed
    requires forall i :: 0 <= i < m[e].levels ==> Level(n, High(m, listed, i) + {e}, i)
    requires forall i :: m[e].levels <= i < MAX_LEVEL ==> Level(n, High(m, listed, i), i)
    requires forall p :: p in listed + {e} ==> Levels(m, p) <= Levels(m, HEAD)
    requires exists p :: p in listed + {e} && Levels(m, p) == Levels(m, HEAD)
    ensures Linked(n, listed + {e}) && Tight(n, listed + {e}) && SameBlocks(m, n)
  {
    hide Level;
    forall i | 0 <= i < MAX_LEVEL ensures Level(n, High(n, listed + {e}, i), i) {
      assert High(n, listed + {e}, i) == if i < n[e].levels then High(m, listed, i) + {e} else High(m, listed, i);
    }
    forall p | p in listed + {e} ensures Levels(n, p) == Levels(m, p) {
    }
    assert Levels(n, HEAD) == Levels(m, HEAD);
  }

  lemma LinksKept(m: Memory, n: Memory, p: int, e: int, i: int, j: int)
    requires Spliced(m, n, p, e, i) && j != i
    ensures forall r :: Link(n, r, j) == Link(m, r, j)
  {
  }

  /** `e` is cut out behind `p` at level `i`, and no link that matters differs. */
  ghost predicate Cut(m: Memory, n: Memory, p: int, e: int, i: int) {
    && Link(n, p, i) == Link(m, e, i)
    && (forall r :: r != p ==> Link(n, r, i) == Link(m, r, i))
    && (forall r, j :: j != i ==> Link(n, r, j) == Link(m, r, j))
  }

  method LinkOut(m: Memory, p: int, e: int, i: int) returns (n: Memory)
    requires p in m && e in m && 0 <= i < |m[p].next| && i < |m[e].next|
    ensures OnlyLinksDiffer(m, n) && Cut(m, n, p, e, i)
  {
    n := m[p := m[p].(next := m[p].next[i := m[e].next[i]])];
  }

  lemma LinksOutKept(m: Memory, n: Memory, p: int, e: int, i: int, j: int)
    requires Cut(m, n, p, e, i) && j != i
    ensures forall r :: Link(n, r, j) == Link(m, r, j)
  {
  }

  lemma HighHas(m: Memory, listed: set<int>, e: int, i: int)
    requires e in listed && i < Levels(m, e)
    ensures e in High(m, listed, i)
  {
  }

  lemma Insertables(m: Memory, listed: set<int>, e: int)
    requires Linked(m, listed) && Tight(m, listed) && e in listed
    ensures Insertable(m, e) && m[e].levels <= Levels(m, HEAD)
  {
  }

  /** The last element before `e` still links to `e`. */
  lemma StillLinked(m: Memory, n: Memory, listed: set<int>, p: int, e: int, i: int)
    requires Shaped(m, listed) && OnlyLinksDiffer(m, n) && 0 <= i < MAX_LEVEL && e in listed && i < Levels(m, e)
    requires Level(n, High(m, listed, i), i) && IsBefore(High(m, listed, i), p, e)
    ensures p in n && i < |n[p].next| && n[p].next[i] == e
  {
    var s := High(m, listed, i);
    assert e in s;
    BeforeNext(s, p, e, Link(n, p, i));
  }

  lemma AboveTop(m: Memory, listed: set<int>, e: int, k: int)
    requires Levels(m, e) <= k
    ensures forall i :: k <= i ==> High(m, listed, i) - {e} == High(m, listed, i)
  {
  }

  lemma ListRemoved(m: Memory, n: Memory, listed: set<int>, e: int)
    requires Linked(m, listed) && Tight(m, listed) && e in listed && OnlyLinksDiffer(m, n)
    requires forall i :: 0 <= i < MAX_LEVEL ==> Level(n, High(m, listed, i) - {e}, i)
    ensures Linked(n, listed - {e}) && SameBlocks(m, n) && forall p :: p in listed - {e} ==> Levels(n, p) <= Levels(n, HEAD)
  {
    hide Level;
    forall i | 0 <= i < MAX_LEVEL ensures Level(n, High(n, listed - {e}, i), i) {
      assert High(n, listed - {e}, i) == High(m, listed, i) - {e};
    }
  }

  lemma UnusedLevel(m: Memory, listed: set<int>, i: int)
    requires Linked(m, listed) && 0 <= i < MAX_LEVEL && Link(m, HEAD, i) == 0
    ensures forall p :: p in listed ==> Levels(m, p) <= i
  {
    var s := High(m, listed, i);
    assert Level(m, s, i);
    forall p | p in listed ensures Levels(m, p) <= i {
      assert p !in s;
    }
  }

  lemma UsedLevel(m: Memory, listed: set<int>, i: int)
    requires Linked(m, listed) && 0 <= i < MAX_LEVEL && Link(m, HEAD, i) != 0 && forall p :: p in listed ==> Levels(m, p) <= i + 1
    ensures exists p :: p in listed && Levels(m, p) == i + 1
  {
    var s := High(m, listed, i);
    assert Level(m, s, i);
    assert Link(m, HEAD, i) in s;
  }

  lemma HeadLowered(m: Memory, listed: set<int>)
    requires Linked(m, listed) && m[HEAD].levels > 0
    ensures Linked(m[HEAD := m[HEAD].(levels := m[HEAD].levels - 1)], listed)
  {
    var n := m[HEAD := m[HEAD].(levels := m[HEAD].levels - 1)];
    forall i | 0 <= i < MAX_LEVEL ensures Level(n, High(n, listed, i), i) {
      assert High(n, listed, i) == High(m, listed, i);
      LevelKept(m, n, High(m, listed, i), i);
    }
  }

  lemma SameLinks(m: Memory, n: Memory, listed: set<int>)
    requires Linked(m, listed) && Tight(m, listed)
    requires forall p :: p in listed + {HEAD} ==> p in n && n[p].levels == m[p].levels && n[p].next == m[p].next
    ensures Linked(n, listed) && Tight(n, listed)
  {
    forall i | 0 <= i < MAX_LEVEL ensures Level(n, High(n, listed, i), i) {
      assert High(n, listed, i) == High(m, listed, i);
      LevelKept(m, n, High(m, listed, i), i);
    }
    if Levels(m, HEAD) > 0 {
      var p :| p in listed && Levels(m, p) == Levels(m, HEAD);
      assert p in listed && Levels(n, p) == Levels(n, HEAD);
    }
  }

  method LinkIn(m: Memory, p: int, e: int, i: int) returns (n: Memory)
    requires p in m && e in m && p != e && 0 <= i < |m[p].next| && i < |m[e].next|
    ensures OnlyLinksDiffer(m, n) && Spliced(m, n, p, e, i)
  {
    n := m[e := m[e].(next := m[e].next[i := m[p].next[i]])];
    n := n[p := n[p].(next := n[p].next[i := e])];
  }

  class SkipList {
    var mem: Memory

    /** The elements. */
    ghost var listed: set<int>

    ghost predicate Valid()
      reads this
    {
      Linked(mem, listed) && Tight(mem, listed)
    }

    constructor ()
      ensures Valid() && listed == {} && mem.Keys == {HEAD} && mem[HEAD].size == 0
    {
      mem := map[HEAD := Block(0, false, 0, seq(MAX_LEVEL, _ => 0))];
      listed := {};
    }

    /** The first element not below `e`, and for each level in use the last element below `e`. */
    method Search(e: int) returns (found: int, prev: seq<int>)
      requires Valid() && e > 0
      ensures IsNext(listed, e - 1, found) && |prev| == MAX_LEVEL
      ensures forall i :: 0 <= i < mem[HEAD].levels ==> IsBefore(High(mem, listed, i), prev[i], e)
    {
      hide Tight, Level;
      prev := seq(MAX_LEVEL, _ => 0);
      var p := HEAD;
      var level := mem[HEAD].levels - 1;
      while level >= 0
        invariant -1 <= level < mem[HEAD].levels && |prev| == MAX_LEVEL
        invariant p < e && (p == HEAD || (p in listed && Levels(mem, p) > level))
        invariant level + 1 < mem[HEAD].levels ==> p == prev[level + 1]
        invariant forall i :: level < i < mem[HEAD].levels ==> IsBefore(High(mem, listed, i), prev[i], e)
      {
        p := Descend(level, p, e);
        prev := prev[level := p];
        level := level - 1;
      }
      if mem[HEAD].levels == 0 {
        NothingListed(mem, listed);
        return 0, prev;
      }
      BottomLevel(mem, listed);
      FirstNotBelow(mem, listed, p, e);
      found := mem[p].next[0];
    }

    /** Puts element `e`, whose levels are set, on the list. */
    method Insert(e: int) returns (prev: seq<int>)
      requires Valid() && e !in listed && Insertable(mem, e)
      modifies this
      ensures Valid() && listed == old(listed) + {e} && SameBlocks(old(mem), mem)
      ensures |prev| == MAX_LEVEL && IsBefore(old(listed), prev[0], e)
    {
      hide Linked, Tight, Level, High;
      ghost var m := mem;
      var found;
      found, prev := Search(e);
      prev := Extend(e, prev);
      ghost var m1 := mem;
      HeadRaised(m, m1, listed, e);
      BottomLevel(m1, listed);
      Splice(e, prev);
      ListInserted(m1, mem, listed, e);
      listed := listed + {e};
    }

    /** Takes element `e` off the list. */
    method Delete(e: int)
      requires Valid() && e in listed
      modifies this
      ensures Valid() && listed == old(listed) - {e} && SameBlocks(old(mem), mem)
    {
      hide Linked, Tight, Level, High;
      ghost var m := mem;
      Insertables(m, listed, e);
      var found, prev := Search(e);
      assert found == e;
      Unlink(e, prev);
      ghost var m1 := mem;
      ListRemoved(m, m1, listed, e);
      listed := listed - {e};
      Lower();
    }

    /** Links `e` out at each of its levels. */
    method Unlink(e: int, prev: seq<int>)
      requires Linked(mem, listed) && Insertable(mem, e) && e in listed && |prev| == MAX_LEVEL
      requires forall i :: 0 <= i < mem[e].levels ==> IsBefore(High(mem, listed, i), prev[i], e)
      modifies this`mem
      ensures OnlyLinksDiffer(old(mem), mem)
      ensures forall i :: 0 <= i < MAX_LEVEL ==> Level(mem, High(old(mem), listed, i) - {e}, i)
    {
      hide Level, High, Cut;
      ghost var m := mem;
      var i := 0;
      StillLinked(m, mem, listed, prev[0], e, 0);
      while i != mem[e].levels && mem[prev[i]].next[i] == e
        invariant OnlyLinksDiffer(m, mem) && 0 <= i <= m[e].levels
        invariant forall j :: 0 <= j < i ==> Level(mem, High(m, listed, j) - {e}, j)
        invariant forall j :: i <= j < MAX_LEVEL ==> Level(mem, High(m, listed, j), j)
        invariant i < m[e].levels ==> prev[i] in mem && i < |mem[prev[i]].next| && mem[prev[i]].next[i] == e
        decreases m[e].levels - i
      {
        var p := prev[i];
        assert IsBefore(High(m, listed, i), p, e);
        HasLink(m, mem, listed, p, i);
        ghost var m0 := mem;
        mem := LinkOut(mem, p, e, i);
        HighPositive(m, listed, i);
        HighHas(m, listed, e, i);
        LevelRemoved(m0, mem, High(m, listed, i), i, p, e);
        forall j | 0 <= j < i ensures Level(mem, High(m, listed, j) - {e}, j) {
          LinksOutKept(m0, mem, p, e, i, j);
          LevelKept(m0, mem, High(m, listed, j) - {e}, j);
        }
        forall j | i < j < MAX_LEVEL ensures Level(mem, High(m, listed, j), j) {
          LinksOutKept(m0, mem, p, e, i, j);
          LevelKept(m0, mem, High(m, listed, j), j);
        }
        i := i + 1;
        if i < m[e].levels {
          StillLinked(m, mem, listed, prev[i], e, i);
        }
      }
      AboveTop(m, listed, e, i);
    }

    /** Gives up head levels that are no longer used. */
    method Lower()
      requires Linked(mem, listed) && forall p :: p in listed ==> Levels(mem, p) <= Levels(mem, HEAD)
      modifies this`mem
      ensures Valid() && mem == old(mem)[HEAD := old(mem)[HEAD].(levels := Levels(mem, HEAD))]
    {
      hide Level;
      ghost var m := mem;
      while mem[HEAD].levels > 0 && mem[HEAD].next[mem[HEAD].levels - 1] == 0
        invariant Linked(mem, listed) && forall p :: p in listed ==> Levels(mem, p) <= Levels(mem, HEAD)
        invariant mem == m[HEAD := m[HEAD].(levels := Levels(mem, HEAD))]
        decreases Levels(mem, HEAD)
      {
        UnusedLevel(mem, listed, mem[HEAD].levels - 1);
        HeadLowered(mem, listed);
        mem := mem[HEAD := mem[HEAD].(levels := mem[HEAD].levels - 1)];
      }
      if mem[HEAD].levels > 0 {
        UsedLevel(mem, listed, mem[HEAD].levels - 1);
      }
    }

    /** Writes a header. Links and levels of an element must stay. */
    method Write(b: int, block: Block)
      requires Valid() && b != HEAD && (b in listed ==> block.levels == mem[b].levels && block.next == mem[b].next)
      modifies this`mem
      ensures Valid() && mem == old(mem)[b := block]
    {
      hide Level, High;
      SameLinks(mem, mem[b := block], listed);
      mem := mem[b := block];
    }

    /** Forgets the header of a block that has ceased to exist. */
    method Erase(b: int)
      requires Valid() && b != HEAD && b !in listed
      modifies this`mem
      ensures Valid() && mem == old(mem) - {b}
    {
      hide Level, High;
      SameLinks(mem, mem - {b}, listed);
      mem := mem - {b};
    }

    /** Makes the head use at least as many levels as `e` has. */
    method Extend(e: int, prev0: seq<int>) returns (prev: seq<int>)
      requires Valid() && Insertable(mem, e) && |prev0| == MAX_LEVEL
      requires forall i :: 0 <= i < mem[HEAD].levels ==> IsBefore(High(mem, listed, i), prev0[i], e)
      modifies this`mem
      ensures mem == old(mem)[HEAD := old(mem)[HEAD].(levels := Levels(mem, HEAD))]
      ensures Levels(mem, HEAD) == if old(mem)[HEAD].levels < old(mem)[e].levels then old(mem)[e].levels else old(mem)[HEAD].levels
      ensures |prev| == MAX_LEVEL && forall i :: 0 <= i < Levels(mem, e) ==> IsBefore(High(mem, listed, i), prev[i], e)
    {
      ghost var m := mem;
      prev := prev0;
      while mem[HEAD].levels < mem[e].levels
        invariant HEAD in mem && e in mem && |prev| == MAX_LEVEL && m[HEAD].levels <= mem[HEAD].levels
        invariant mem[HEAD].levels <= m[HEAD].levels || mem[HEAD].levels <= m[e].levels
        invariant mem == m[HEAD := m[HEAD].(levels := mem[HEAD].levels)]
        invariant forall i :: 0 <= i < mem[HEAD].levels ==> IsBefore(High(m, listed, i), prev[i], e)
        decreases mem[e].levels - mem[HEAD].levels
      {
        var level := mem[HEAD].levels;
        assert High(m, listed, level) == {};
        prev := prev[level := HEAD];
        mem := mem[HEAD := mem[HEAD].(levels := level + 1)];
      }
      forall i | 0 <= i < mem[e].levels ensures IsBefore(High(mem, listed, i), prev[i], e) {
        assert High(mem, listed, i) == High(m, listed, i);
      }
    }

    /** Links `e` in behind `prev` at each of its levels. */
    method Splice(e: int, prev: seq<int>)
      requires Linked(mem, listed) && Insertable(mem, e) && e !in listed && |prev| == MAX_LEVEL
      requires forall i :: 0 <= i < mem[e].levels ==> IsBefore(High(mem, listed, i), prev[i], e)
      modifies this`mem
      ensures OnlyLinksDiffer(old(mem), mem)
      ensures forall i :: 0 <= i < mem[e].levels ==> Level(mem, High(old(mem), listed, i) + {e}, i)
      ensures forall i :: mem[e].levels <= i < MAX_LEVEL ==> Level(mem, High(old(mem), listed, i), i)
    {
      hide Level, High, Spliced;
      ghost var m := mem;
      var i := 0;
      while i != mem[e].levels
        invariant OnlyLinksDiffer(m, mem) && 0 <= i <= m[e].levels
        invariant forall j :: 0 <= j < i ==> Level(mem, High(m, listed, j) + {e}, j)
        invariant forall j :: i <= j < MAX_LEVEL ==> Level(mem, High(m, listed, j), j)
        decreases m[e].levels - i
      {
        var p := prev[i];
        assert IsBefore(High(m, listed, i), p, e);
        HasLink(m, mem, listed, p, i);
        ghost var m0 := mem;
        mem := LinkIn(mem, p, e, i);
        HighPositive(m, listed, i);
        LevelInserted(m0, mem, High(m, listed, i), i, p, e);
        forall j | 0 <= j < i ensures Level(mem, High(m, listed, j) + {e}, j) {
          LinksKept(m0, mem, p, e, i, j);
          LevelKept(m0, mem, High(m, listed, j) + {e}, j);
        }
        forall j | i < j < MAX_LEVEL ensures Level(mem, High(m, listed, j), j) {
          LinksKept(m0, mem, p, e, i, j);
          LevelKept(m0, mem, High(m, listed, j), j);
        }
        i := i + 1;
      }
    }

    /** Follows level `level` from `start` to the last element below `e`. */
    method Descend(level: int, start: int, e: int) returns (p: int)
      requires Valid() && 0 <= level < mem[HEAD].levels && start < e && (start == HEAD || (start in listed && Levels(mem, start) > level))
      ensures IsBefore(High(mem, listed, level), p, e) && (p == HEAD || (p in listed && Levels(mem, p) > level))
    {
      ghost var s := High(mem, listed, level);
      assert Level(mem, s, level);
      p := start;
      var n := mem[p].next[level];
      while n != 0 && n < e
        invariant p < e && (p == HEAD || p in s) && n == Link(mem, p, level)
        decreases e - p
      {
        p := n;
        n := mem[p].next[level];
      }
    }
  }

  lemma NothingListed(mem: Memory, listed: set<int>)
    requires Linked(mem, listed) && Tight(mem, listed) && mem[HEAD].levels == 0
    ensures listed == {}
  {
    assert forall p :: p in listed ==> false;
  }

  lemma FirstNotBelow(mem: Memory, listed: set<int>, p: int, e: int)
    requires Level(mem, listed, 0) && IsBefore(listed, p, e)
    ensures IsNext(listed, e - 1, Link(mem, p, 0))
  {
  }

  lemma BottomLevel(mem: Memory, listed: set<int>)
    requires Linked(mem, listed)
    ensures High(mem, listed, 0) == listed && Level(mem, listed, 0)
  {
    assert High(mem, listed, 0) == listed;
  }
}
