/** The open-addressing hash set that stores the neighbours of a graph node. */
module NodeSets {
  import opened MachineInts

  const EMPTY := -1
  const DELETED := -2
  const INLINE := 8

  /** The product wraps around at 32 bits. */
  function Hash(v: int): nat {
    UInt32(v * 41)
  }

  function Threshold(n: nat): nat {
    n - n / 4
  }

  /** Number of slots that are in use or carry a tombstone. */
  ghost function Occupied(t: seq<int>): nat {
    if t == [] then 0 else Occupied(t[..|t| - 1]) + (if t[|t| - 1] == EMPTY then 0 else 1)
  }

  /** Number of probe steps from slot `from` to slot `to` in a table of `n` slots. */
  ghost function Gap(from: int, to: int, n: int): int {
    if to >= from then to - from else to - from + n
  }

  /** The slot where probing for `v` starts. */
  function Home(v: int, n: nat): nat
    requires n > 0
  {
    BitAnd(Hash(v), n - 1)
  }

  lemma HomeInTable(v: int, n: nat)
    requires IsPow2(n)
    ensures Home(v, n) < n
  {
    MaskIsRemainder(Hash(v), n);
  }

  /** No slot that probing for `v` inspects before slot `i` is empty. */
  ghost predicate Clear(t: seq<int>, v: int, i: int)
    requires |t| > 0
  {
    forall j :: 0 <= j < |t| && Gap(Home(v, |t|), j, |t|) < Gap(Home(v, |t|), i, |t|) ==> t[j] != EMPTY
  }

  ghost predicate WellFormed(t: seq<int>) {
    && |t| >= INLINE && IsPow2(|t|)
    && (forall i :: 0 <= i < |t| && t[i] >= 0 ==> Clear(t, t[i], i))
    && (forall i, j :: 0 <= i < |t| && 0 <= j < |t| && t[i] == t[j] && t[i] >= 0 ==> i == j)
    && (forall i :: 0 <= i < |t| ==> t[i] >= DELETED)
  }

  ghost function Members(t: seq<int>): set<int> {
    set v | v in t && v >= 0
  }

  lemma {:induction false} OccupiedUpdate(t: seq<int>, i: nat, v: int)
    requires i < |t|
    ensures Occupied(t[i := v]) == Occupied(t) - (if t[i] == EMPTY then 0 else 1) + (if v == EMPTY then 0 else 1)
    decreases |t|
  {
    var n := |t| - 1;
    if i == n {
      assert t[i := v][..n] == t[..n];
    } else {
      assert t[i := v][..n] == t[..n][i := v];
      OccupiedUpdate(t[..n], i, v);
    }
  }

  lemma {:induction false} OccupiedBound(t: seq<int>)
    ensures Occupied(t) <= |t|
    ensures Occupied(t) < |t| ==> exists i :: 0 <= i < |t| && t[i] == EMPTY
    ensures (forall i :: 0 <= i < |t| ==> t[i] == EMPTY) ==> Occupied(t) == 0
  {
    if t != [] {
      var n := |t| - 1;
      OccupiedBound(t[..n]);
      if t[n] != EMPTY && Occupied(t) < |t| {
        var i :| 0 <= i < n && t[..n][i] == EMPTY;
        assert t[i] == EMPTY;
      }
      if t[n] == EMPTY { assert Occupied(t) < |t|; }
    }
  }

  lemma MembersUpdate(t: seq<int>, i: nat, v: int)
    requires WellFormed(t) && i < |t| && (v >= 0 ==> t[i] < 0)
    ensures Members(t[i := v]) == Members(t) - {t[i]} + (if v >= 0 then {v} else {})
  {
    var u := t[i := v];
    forall w | w in Members(t) - {t[i]} ensures w in u {
      var k :| 0 <= k < |t| && t[k] == w;
      assert u[k] == w;
    }
    assert u[i] == v;
    forall w | w in Members(u) && w != v ensures w in t && w != t[i] {
      var k :| 0 <= k < |u| && u[k] == w;
      assert t[k] == w;
    }
  }

  lemma MembersPrefix(t: seq<int>, lo: nat, hi: nat)
    requires lo < hi <= |t| && (forall k :: lo <= k < hi - 1 ==> t[k] < 0)
    ensures Members(t[..hi]) == Members(t[..lo]) + (if t[hi - 1] >= 0 then {t[hi - 1]} else {})
  {
    forall v | v in Members(t[..hi]) && v != t[hi - 1] ensures v in Members(t[..lo]) {
      var k :| 0 <= k < hi && t[k] == v;
      assert t[..lo][k] == v;
    }
    forall v | v in Members(t[..lo]) ensures v in Members(t[..hi]) {
      var k :| 0 <= k < lo && t[k] == v;
      assert t[..hi][k] == v;
    }
    assert t[..hi][hi - 1] == t[hi - 1];
  }

  class NodeSet {
    var table: seq<int>
    var occupied: nat

    /** The set this table stands for. */
    ghost var elems: set<int>
    /** Distinguishes the sets of different nodes. */
    ghost const tag: int

    ghost predicate Consistent()
      reads this
    {
      WellFormed(table) && occupied == Occupied(table) && elems == Members(table)
    }

    ghost predicate Valid()
      reads this
    {
      Consistent() && occupied < Threshold(|table|)
    }

    constructor (ghost tag: int)
      ensures Valid() && elems == {} && this.tag == tag
    {
      table := seq(INLINE, _ => EMPTY);
      occupied := 0;
      elems := {};
      this.tag := tag;
      new;
      AllEmpty(table, 4);
    }

    /** Empties the set. */
    method Reset()
      modifies this
      ensures Valid() && elems == {}
    {
      table := seq(INLINE, _ => EMPTY);
      occupied := 0;
      elems := {};
      AllEmpty(table, 4);
    }

    /** The slot that holds `v`, or else one where it can be stored. */
    method FindIndex(v: int) returns (i: nat)
      requires Consistent() && occupied < |table| && v >= 0
      ensures i < |table|
      ensures if v in elems then table[i] == v else table[i] < 0 && Clear(table, v, i)
    {
      var t := table;
      var mask := |t| - 1;
      HomeInTable(v, |t|);
      i := BitAnd(Hash(v), mask);
      var deletedIndex, seenDeleted := 0, false;
      while true
        invariant 0 <= i < |t| && Unmet(t, v, i)
        invariant seenDeleted ==> 0 <= deletedIndex < |t| && t[deletedIndex] == DELETED && Clear(t, v, deletedIndex)
        decreases |t| - Gap(Home(v, |t|), i, |t|)
      {
        var e := t[i];
        if v == e {
          assert v in t;
          return i;
        } else if e == EMPTY {
          AbsentAt(t, v, i);
          return if seenDeleted then deletedIndex else i;
        } else if e == DELETED && !seenDeleted {
          deletedIndex, seenDeleted := i, true;
        }
        ProbeStep(t, v, i);
        i := BitAnd(i + 1, mask);
      }
    }

    method Contains(v: int) returns (found: bool)
      requires Valid() && v >= 0
      ensures found <==> v in elems
    {
      var i := FindIndex(v);
      found := table[i] == v;
    }

    /** Adds `v`; the table doubles when three quarters of its slots are occupied. */
    method Insert(v: int) returns (added: bool)
      requires Valid() && v >= 0
      modifies this
      ensures Valid() && elems == old(elems) + {v} && added == (v !in old(elems))
      ensures old(occupied) + 1 < Threshold(old(|table|)) ==>
                |table| == old(|table|) && occupied <= old(occupied) + 1
      decreases if occupied + 1 < Threshold(|table|) then 0 else 1, 1
    {
      var i := FindIndex(v);
      if table[i] == v {
        return false;
      }
      StoreAt(table, v, i);
      OccupiedUpdate(table, i, v);
      MembersUpdate(table, i, v);
      if table[i] == EMPTY {
        occupied := occupied + 1;
      }
      table := table[i := v];
      elems := elems + {v};
      if occupied >= |table| - |table| / 4 {
        Grow();
      }
      return true;
    }

    /** Moves the members to a table of twice the size, which cannot itself need to grow meanwhile. */
    method Grow()
      requires Consistent() && occupied == Threshold(|table|)
      modifies this
      ensures Valid() && elems == old(elems) && |table| == 2 * old(|table|)
      decreases 1, 0
    {
      var copy := table;
      table, occupied, elems := seq(2 * |copy|, _ => EMPTY), 0, {};
      AllEmpty(table, |copy|);
      for k := 0 to |copy|
        invariant Valid() && |table| == 2 * |copy|
        invariant elems == Members(copy[..k]) && occupied <= Occupied(copy[..k])
      {
        MembersPrefix(copy, k, k + 1);
        OccupiedPrefix(copy, k);
        if copy[k] >= 0 {
          var added := Insert(copy[k]);
        }
      }
      assert copy[..|copy|] == copy;
    }

    /** Removes `v` and leaves a tombstone in its slot. */
    method Erase(v: int)
      requires Valid() && v >= 0
      modifies this
      ensures Valid() && elems == old(elems) - {v}
    {
      var i := FindIndex(v);
      if table[i] == v {
        OccupiedUpdate(table, i, DELETED);
        MembersUpdate(table, i, DELETED);
        table := table[i := DELETED];
        elems := elems - {v};
      }
    }

    /** The members an iteration has produced when its cursor stands at `cursor`. */
    ghost function Produced(cursor: nat): set<int>
      reads this
      requires cursor <= |table|
    {
      Members(table[..cursor])
    }

    /** One step of an iteration: each member is produced exactly once. */
    method Next(cursor: nat) returns (more: bool, cursor': nat, elem: int)
      requires Valid() && cursor <= |table|
      ensures cursor <= cursor' <= |table|
      ensures more ==> cursor < cursor' && elem in elems && elem !in Produced(cursor) && Produced(cursor') == Produced(cursor) + {elem}
      ensures !more ==> Produced(cursor) == elems
      ensures Produced(0) == {}
    {
      cursor' := cursor;
      elem := 0;
      while cursor' < |table|
        invariant cursor <= cursor' <= |table|
        invariant forall k :: cursor <= k < cursor' ==> table[k] < 0
      {
        var v := table[cursor'];
        cursor' := cursor' + 1;
        if v >= 0 {
          MembersPrefix(table, cursor, cursor');
          return true, cursor', v;
        }
      }
      assert table[..|table|] == table;
      if cursor < |table| { MembersPrefix(table, cursor, |table|); }
      more := false;
    }
  }

  /** What one more slot adds to the occupation of a prefix, which stays below the whole. */
  lemma OccupiedPrefix(t: seq<int>, k: nat)
    requires k < |t|
    ensures Occupied(t[..k + 1]) == Occupied(t[..k]) + (if t[k] == EMPTY then 0 else 1)
    ensures Occupied(t[..k + 1]) <= Occupied(t)
    decreases |t| - k
  {
    assert t[..k + 1][..k] == t[..k];
    if k + 1 < |t| {
      OccupiedPrefix(t, k + 1);
    } else {
      assert t[..k + 1] == t;
    }
  }

  /** A table of empty slots stands for the empty set. */
  lemma AllEmpty(t: seq<int>, half: nat)
    requires IsPow2(half) && |t| == 2 * half && half >= 4 && forall i :: 0 <= i < |t| ==> t[i] == EMPTY
    ensures WellFormed(t) && Occupied(t) == 0 && Members(t) == {}
  {
    OccupiedBound(t);
  }

  /** Probing for `v` has met neither `v` nor an empty slot before slot `i`. */
  ghost predicate Unmet(t: seq<int>, v: int, i: int)
    requires |t| > 0
  {
    && Clear(t, v, i)
    && forall j :: 0 <= j < |t| && Gap(Home(v, |t|), j, |t|) < Gap(Home(v, |t|), i, |t|) ==> t[j] != v
  }

  lemma NextSlot(i: nat, n: nat)
    requires IsPow2(n) && i < n
    ensures BitAnd(i + 1, n - 1) == if i + 1 == n then 0 else i + 1
  {
    MaskIsRemainder(i + 1, n);
    if i + 1 == n { ModUnique(i + 1, n, 1, 0); } else { ModUnique(i + 1, n, 0, i + 1); }
  }

  lemma GapStep(h: nat, i: nat, e: nat, n: nat)
    requires h < n && i < n && e < n && e != i && Gap(h, i, n) <= Gap(h, e, n)
    ensures var k := if i + 1 == n then 0 else i + 1;
            Gap(h, k, n) == Gap(h, i, n) + 1 < n
    ensures var k := if i + 1 == n then 0 else i + 1;
            forall j :: 0 <= j < n && Gap(h, j, n) < Gap(h, k, n) ==> j == i || Gap(h, j, n) < Gap(h, i, n)
  {
  }

  /** The masked successor is the next slot of the cyclic probe order, and probing has not wrapped around. */
  lemma ProbeStep(t: seq<int>, v: int, i: nat)
    requires WellFormed(t) && i < |t| && Unmet(t, v, i) && t[i] != EMPTY && t[i] != v
    requires Occupied(t) < |t|
    ensures var k := BitAnd(i + 1, |t| - 1);
            0 <= k < |t| && Unmet(t, v, k) && Gap(Home(v, |t|), i, |t|) < Gap(Home(v, |t|), k, |t|) < |t|
  {
    NextSlot(i, |t|);
    HomeInTable(v, |t|);
    OccupiedBound(t);
    var e :| 0 <= e < |t| && t[e] == EMPTY;
    GapStep(Home(v, |t|), i, e, |t|);
  }

  /** Probing that reaches an empty slot without meeting `v` shows that `v` is absent. */
  lemma AbsentAt(t: seq<int>, v: int, i: nat)
    requires WellFormed(t) && i < |t| && t[i] == EMPTY && v >= 0 && Unmet(t, v, i)
    ensures v !in Members(t)
  {
    forall k | 0 <= k < |t| ensures t[k] != v {
    }
  }

  /** Storing an absent member at the slot probing has found keeps every member findable. */
  lemma StoreAt(t: seq<int>, v: int, i: nat)
    requires WellFormed(t) && i < |t| && v >= 0 && v !in Members(t) && t[i] < 0 && Clear(t, v, i)
    ensures WellFormed(t[i := v])
  {
    var u := t[i := v];
    forall k | 0 <= k < |u| && u[k] >= 0 ensures Clear(u, u[k], k) {
      assert k != i ==> Clear(t, t[k], k);
    }
  }
}
