/** Sets of memory blocks, given as a map from the address of each block to its size. */
module BlockMaps {

  type Blocks = map<int, int>

  /** Byte `a` belongs to block `b`. */
  ghost predicate Holds(m: Blocks, b: int, a: int) {
    b in m && b <= a < b + m[b]
  }

  ghost predicate Covers(m: Blocks, a: int) {
    exists b :: Holds(m, b, a)
  }

  ghost function Bytes(m: Blocks): iset<int> {
    iset a | Covers(m, a)
  }

  ghost predicate InRange(b: int, size: int, a: int) {
    b <= a < b + size
  }

  ghost function Range(b: int, size: int): iset<int> {
    iset a | InRange(b, size, a)
  }

  /** Blocks do not overlap, and none is empty or at address 0. */
  ghost predicate Separate(m: Blocks) {
    && (forall b :: b in m ==> b > 0 && m[b] > 0)
    && (forall b, c :: b in m && c in m && b < c ==> b + m[b] <= c)
  }

  /** No block ends where another begins. */
  ghost predicate Canonical(m: Blocks) {
    forall b :: b in m ==> b + m[b] !in m
  }

  /** No block but perhaps `a` ends where another begins. */
  ghost predicate CanonicalBut(m: Blocks, a: int) {
    forall b :: b in m && b != a ==> b + m[b] !in m
  }

  lemma SameCover(m: Blocks, n: Blocks, a: int)
    requires Bytes(m) == Bytes(n)
    ensures Covers(m, a) <==> Covers(n, a)
  {
    assert a in Bytes(m) <==> Covers(m, a);
    assert a in Bytes(n) <==> Covers(n, a);
  }

  lemma SameStart(m: Blocks, n: Blocks, p: int)
    requires Separate(m) && Canonical(m) && Separate(n) && Bytes(m) == Bytes(n) && p in m
    ensures p in n
  {
    assert Holds(m, p, p);
    assert p in Bytes(n);
    var q :| Holds(n, q, p);
    if q < p {
      assert Holds(n, q, p - 1);
      SameCover(m, n, p - 1);
    }
  }

  lemma SameSize(m: Blocks, n: Blocks, p: int)
    requires Separate(m) && Canonical(m) && Separate(n) && Bytes(m) == Bytes(n) && p in m && p in n
    ensures n[p] <= m[p]
  {
    var a := p + m[p];
    if m[p] < n[p] {
      assert Holds(n, p, a);
      SameCover(m, n, a);
    }
  }

  /** A canonical list of blocks is determined by the set of their bytes. */
  lemma CanonicalUnique(m: Blocks, n: Blocks)
    requires Separate(m) && Canonical(m) && Separate(n) && Canonical(n) && Bytes(m) == Bytes(n)
    ensures m == n
  {
    forall p | p in m ensures p in n && n[p] == m[p] {
      SameStart(m, n, p);
      SameSize(m, n, p);
      SameSize(n, m, p);
    }
    forall p | p in n ensures p in m {
      SameStart(n, m, p);
    }
  }

  /** Block `a` swallows the block that begins where it ends, if there is one. */
  ghost function Coalesced(m: Blocks, a: int): Blocks {
    if a in m && a + m[a] in m then (m - {a + m[a]})[a := m[a] + m[a + m[a]]] else m
  }

  lemma CoalescedBytes(m: Blocks, a: int)
    requires Separate(m)
    ensures Separate(Coalesced(m, a)) && Bytes(Coalesced(m, a)) == Bytes(m)
  {
    var n := Coalesced(m, a);
    if a in m && a + m[a] in m {
      var c := a + m[a];
      forall x | x in Bytes(m) ensures x in Bytes(n) {
        var b :| Holds(m, b, x);
        assert Holds(n, if b == c then a else b, x);
      }
      forall x | x in Bytes(n) ensures x in Bytes(m) {
        var b :| Holds(n, b, x);
        assert Holds(m, if b == a && x >= c then c else b, x);
      }
    }
  }

  /** `p` is the last block before address `f`, or 0. */
  ghost predicate IsBefore(keys: set<int>, p: int, f: int) {
    (p == 0 || p in keys) && p < f && forall r :: r in keys && r < f ==> r <= p
  }

  /** What freeing a block does to the free blocks: it is added and then coalesced with both neighbours. */
  ghost function Freed(m: Blocks, f: int, size: int, p: int): Blocks {
    Coalesced(Coalesced(m[f := size], f), p)
  }

  /** Coalescing a block repairs a list that is canonical except perhaps there. */
  lemma CoalescedCanonical(m: Blocks, a: int)
    requires Separate(m) && CanonicalBut(m, a)
    ensures Canonical(Coalesced(m, a))
  {
    var n := Coalesced(m, a);
    forall b | b in n ensures b + n[b] !in n {
      if b == a && n != m {
        var c := a + m[a];
        assert c + m[c] !in m;
      }
    }
  }

  lemma CoalescedAhead(m: Blocks, f: int, size: int, p: int)
    requires Separate(m[f := size]) && Canonical(m) && f !in m && IsBefore(m.Keys, p, f)
    ensures CanonicalBut(Coalesced(m[f := size], f), p)
  {
    var m1 := m[f := size];
    var n := Coalesced(m1, f);
    forall b | b in n && b != p ensures b + n[b] !in n {
      assert m1[f] == size && (p != 0 ==> p in m1);
      if b == f {
        if f + size in m1 { assert f + size in m && f + size + m[f + size] !in m; }
      } else {
        assert m1[b] == m[b] && b + m[b] !in m;
      }
    }
  }

  /** Adding a block and coalescing it with both neighbours keeps the list canonical. */
  lemma FreedCanonical(m: Blocks, f: int, size: int, p: int)
    requires Separate(m[f := size]) && Canonical(m) && f !in m && IsBefore(m.Keys, p, f)
    ensures Canonical(Freed(m, f, size, p))
  {
    hide CanonicalBut, Coalesced, Separate, IsBefore;
    CoalescedBytes(m[f := size], f);
    CoalescedAhead(m, f, size, p);
    CoalescedCanonical(Coalesced(m[f := size], f), p);
  }

  lemma FreedBytes(m: Blocks, f: int, size: int, p: int)
    requires Separate(m[f := size]) && f !in m && IsBefore(m.Keys, p, f)
    ensures Separate(Freed(m, f, size, p)) && Bytes(Freed(m, f, size, p)) == Bytes(m) + Range(f, size)
    ensures exists b :: b in Freed(m, f, size, p) && Freed(m, f, size, p)[b] >= size
  {
    var m1 := m[f := size];
    CoalescedBytes(m1, f);
    CoalescedBytes(Coalesced(m1, f), p);
    AddBytes(m, f, size);
    var m3 := Freed(m, f, size, p);
    assert f in m3 || p in m3;
    assert (if f in m3 then m3[f] else m3[p]) >= size;
  }

  lemma AddBytes(m: Blocks, f: int, size: int)
    requires f !in m
    ensures Bytes(m[f := size]) == Bytes(m) + Range(f, size)
  {
    var n := m[f := size];
    forall x | x in Bytes(n) ensures x in Bytes(m) + Range(f, size) {
      var b :| Holds(n, b, x);
      assert b != f ==> Holds(m, b, x);
    }
    forall x | x in Bytes(m) + Range(f, size) ensures x in Bytes(n) {
      if x in Bytes(m) {
        var b :| Holds(m, b, x);
        assert Holds(n, b, x);
      } else {
        assert Holds(n, f, x);
      }
    }
  }

  /** Taking a block out of separate blocks takes exactly its bytes out. */
  lemma RemoveBytes(m: Blocks, f: int)
    requires Separate(m) && f in m
    ensures Separate(m - {f}) && Bytes(m - {f}) == Bytes(m) - Range(f, m[f])
  {
    var n := m - {f};
    forall x | x in Bytes(n) ensures x in Bytes(m) - Range(f, m[f]) {
      var b :| Holds(n, b, x);
      assert Holds(m, b, x);
    }
    forall x | x in Bytes(m) - Range(f, m[f]) ensures x in Bytes(n) {
      var b :| Holds(m, b, x);
      assert Holds(n, b, x);
    }
  }
}
