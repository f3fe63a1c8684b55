/** The arena allocator: first fit over an address-ordered free list, with splitting and coalescing. */
module Arenas {
  import opened BlockMaps
  import opened BlockSizes
  import opened MachineInts
  import opened SkipLists

  /** Addresses and sizes are multiples of the rounding unit, and no block is smaller than the least size. */
  ghost predicate OnGrid(m: Blocks) {
    forall b :: b in m ==> b % ROUND_UP == 0 && m[b] % ROUND_UP == 0 && m[b] >= MIN_SIZE
  }

  /** Free and used blocks together exactly partition the bytes `owned`. */
  ghost predicate Tiled(free: Blocks, used: Blocks, owned: iset<int>) {
    free.Keys !! used.Keys && Separate(free + used) && OnGrid(free + used) && Bytes(free + used) == owned
  }

  /** The headers in memory are those of the free and the used blocks; free blocks have suitable levels. */
  ghost predicate Mirrored(mem: Memory, free: Blocks, used: Blocks) {
    && mem.Keys == {HEAD} + free.Keys + used.Keys && mem[HEAD].size == 0
    && (forall b :: b in free ==> mem[b].size == free[b] && !mem[b].used && Suits(mem[b].levels, free[b]))
    && (forall b :: b in used ==> mem[b].size == used[b] && mem[b].used)
  }

  lemma SubSeparate(m: Blocks, n: Blocks)
    requires Separate(m + n) && m.Keys !! n.Keys
    ensures Separate(m) && Separate(n)
  {
    assert forall b :: b in m ==> (m + n)[b] == m[b];
    assert forall b :: b in n ==> (m + n)[b] == n[b];
  }

  /** Giving a used block back keeps the partition. */
  lemma TiledGiven(free: Blocks, used: Blocks, owned: iset<int>, f: int)
    requires Tiled(free, used, owned) && f in used
    ensures Tiled(free[f := used[f]], used - {f}, owned)
  {
    assert free[f := used[f]] + (used - {f}) == free + used;
  }

  /** So does taking a free block. */
  lemma TiledTaken(free: Blocks, used: Blocks, owned: iset<int>, s: int)
    requires Tiled(free, used, owned) && s in free
    ensures Tiled(free - {s}, used[s := free[s]], owned)
  {
    assert (free - {s}) + used[s := free[s]] == free + used;
  }

  lemma CoalescedUnion(free: Blocks, used: Blocks, a: int)
    requires free.Keys !! used.Keys
    ensures Coalesced(free, a) == free || Coalesced(free, a) + used == Coalesced(free + used, a)
    ensures Coalesced(free, a).Keys <= free.Keys
  {
  }

  lemma CoalescedOnGrid(m: Blocks, a: int)
    requires OnGrid(m)
    ensures OnGrid(Coalesced(m, a))
  {
  }

  lemma TiledCoalesced(free: Blocks, used: Blocks, owned: iset<int>, a: int)
    requires Tiled(free, used, owned)
    ensures Tiled(Coalesced(free, a), used, owned)
  {
    hide Coalesced, Separate, OnGrid, Bytes;
    CoalescedUnion(free, used, a);
    CoalescedOnGrid(free + used, a);
    CoalescedBytes(free + used, a);
  }

  lemma UnionAdd(free: Blocks, used: Blocks, b: int, size: int)
    requires b !in free
    ensures free + used[b := size] == (free + used)[b := size]
  {
  }

  lemma NotHeld(m: Blocks, b: int, a: int)
    requires Separate(m) && b in m && a !in Bytes(m)
    ensures !(b <= a < b + m[b]) && b in Bytes(m)
  {
    assert !Holds(m, b, a);
    assert Holds(m, b, b);
  }

  /** A fresh region does not touch any block. */
  lemma TiledMapped(free: Blocks, used: Blocks, owned: iset<int>, base: int, size: int)
    requires Tiled(free, used, owned) && base > 0 && base % ROUND_UP == 0 && size % ROUND_UP == 0 && size >= MIN_SIZE
    requires Range(base, size) !! owned
    ensures base !in free && base !in used && Tiled(free, used[base := size], owned + Range(base, size))
  {
    var all := free + used;
    assert base in Range(base, size);
    forall b | b in all ensures b != base && (b < base ==> b + all[b] <= base) && (base < b ==> base + size <= b) {
      NotHeld(all, b, base);
      assert b !in Range(base, size);
    }
    UnionAdd(free, used, base, size);
    AddBytes(all, base, size);
  }

  /** Splitting a block is the inverse of coalescing. */
  lemma SplitBytes(m: Blocks, s: int, size: int)
    requires Separate(m) && s in m && 0 < size < m[s]
    ensures var n := m[s := size][s + size := m[s] - size];
            s + size !in m && Separate(n) && Bytes(n) == Bytes(m)
  {
    var n := m[s := size][s + size := m[s] - size];
    assert Coalesced(n, s) == m;
    CoalescedBytes(n, s);
  }

  lemma SplitOnGrid(m: Blocks, s: int, size: int)
    requires Separate(m) && OnGrid(m) && s in m && size % ROUND_UP == 0 && MIN_SIZE <= size && size + MIN_SIZE <= m[s]
    ensures 0 < size < m[s] && OnGrid(m[s := size][s + size := m[s] - size])
  {
  }

  /** Splitting a used block keeps the partition. */
  lemma TiledSplit(free: Blocks, used: Blocks, owned: iset<int>, s: int, size: int)
    requires Tiled(free, used, owned) && s in used && size % ROUND_UP == 0 && MIN_SIZE <= size && size + MIN_SIZE <= used[s]
    ensures s + size !in free && s + size !in used && Tiled(free, used[s := size][s + size := used[s] - size], owned)
  {
    hide Separate, OnGrid, Bytes;
    assert (free + used)[s] == used[s];
    SplitOnGrid(free + used, s, size);
    SplitBytes(free + used, s, size);
    UnionAdd(free, used, s, size);
    UnionAdd(free, used[s := size], s + size, used[s] - size);
  }

  /** `s` is the lowest-addressed free block of at least `req` bytes, or null if there is none. */
  ghost predicate IsFirstFit(free: Blocks, req: int, s: int) {
    && (s == 0 || (s in free && free[s] >= req))
    && forall b :: b in free && free[b] >= req ==> s != 0 && s <= b
  }

  /** What a request takes of a free block; a remainder that is too small goes with it. */
  function Given(size: int, req: int): int {
    if req + MIN_SIZE <= size then req else size
  }

  /** What an allocation from block `s` leaves of the free blocks. */
  ghost function Remaining(free: Blocks, s: int, req: int): Blocks
    requires s in free
  {
    if req + MIN_SIZE <= free[s] then (free - {s})[s + req := free[s] - req] else free - {s}
  }

  /** The remainder of a split does not coalesce with anything. */
  lemma RestAlone(free: Blocks, s: int, req: int, p: int)
    requires Separate(free) && Canonical(free) && s in free && 0 < req < free[s] && IsBefore((free - {s}).Keys, p, s + req)
    ensures s + req !in free && Freed(free - {s}, s + req, free[s] - req, p) == (free - {s})[s + req := free[s] - req]
  {
    var n := s + req;
    var m := (free - {s})[n := free[s] - req];
    assert n + m[n] == s + free[s] && n + m[n] !in free;
    assert Coalesced(m, n) == m;
    if p in m { assert m[p] == free[p] && p + free[p] !in free; }
  }

  lemma RemainingSeparate(free: Blocks, s: int, req: int)
    requires Separate(free) && s in free && 0 < req <= free[s]
    ensures Separate(Remaining(free, s, req)[s := Given(free[s], req)]) && s !in Remaining(free, s, req)
    ensures Bytes(Remaining(free, s, req)[s := Given(free[s], req)]) == Bytes(free)
  {
    var m := Remaining(free, s, req)[s := Given(free[s], req)];
    if req + MIN_SIZE <= free[s] {
      SplitBytes(free, s, req);
      assert m == free[s := req][s + req := free[s] - req];
    } else {
      assert m == free;
    }
  }

  /** An allocation takes exactly the bytes of the block it hands out from the free ones. */
  lemma TakenBytes(free: Blocks, s: int, req: int)
    requires Separate(free) && s in free && 0 < req <= free[s]
    ensures Bytes(Remaining(free, s, req)) == Bytes(free) - Range(s, Given(free[s], req))
  {
    hide Remaining, Bytes, Range, Separate;
    var m := Remaining(free, s, req);
    RemainingSeparate(free, s, req);
    RemoveBytes(m[s := Given(free[s], req)], s);
    assert m[s := Given(free[s], req)] - {s} == m;
  }

  lemma RemainingCanonical(free: Blocks, s: int, req: int)
    requires Separate(free) && Canonical(free) && s in free && 0 < req <= free[s]
    ensures Canonical(Remaining(free, s, req))
  {
    var m := Remaining(free, s, req);
    forall b | b in m ensures b + m[b] !in m {
      if b in free && b != s { assert b + free[b] !in free; }
      assert s + free[s] !in free;
    }
  }

  /** Freeing what has just been allocated restores the free list exactly. */
  lemma FreeUndoesAlloc(free: Blocks, s: int, req: int, p: int)
    requires Separate(free) && Canonical(free) && s in free && 0 < req <= free[s] && IsBefore(Remaining(free, s, req).Keys, p, s)
    ensures Freed(Remaining(free, s, req), s, Given(free[s], req), p) == free
  {
    hide Freed, Remaining, Canonical, Separate, Bytes, IsBefore;
    RemainingSeparate(free, s, req);
    RemainingCanonical(free, s, req);
    var m, size := Remaining(free, s, req), Given(free[s], req);
    FreedCanonical(m, s, size, p);
    FreedBytes(m, s, size, p);
    AddBytes(m, s, size);
    CanonicalUnique(Freed(m, s, size, p), free);
  }

  /** The element after a free block is adjacent to it exactly if some free block is. */
  lemma NextAdjacent(free: Blocks, a: int, n: int)
    requires Separate(free) && IsNext(free.Keys, a, n) && (a == HEAD || a in free)
    ensures var size := if a in free then free[a] else 0; (n != 0 && a + size == n) <==> (a in free && a + free[a] in free)
    ensures a == HEAD ==> a !in free
  {
  }

  /** The headers after block `a` has swallowed block `n`. */
  lemma MirrorCoalesced(m: Memory, m': Memory, free: Blocks, used: Blocks, a: int, n: int)
    requires Mirrored(m, free, used) && a in free && n in free && n == a + free[a] && a != n && free.Keys !! used.Keys && HEAD !in free
    requires m'.Keys == m.Keys - {n} && HEAD in m' && a in m'
    requires forall b :: b in m' && b != a ==> SameHeader(m, m', b)
    requires m'[a].size == free[a] + free[n] && !m'[a].used && Suits(m'[a].levels, free[a] + free[n])
    ensures Mirrored(m', Coalesced(free, a), used)
  {
    var free' := Coalesced(free, a);
    assert free'.Keys == free.Keys - {n};
    forall b | b in free' ensures m'[b].size == free'[b] && !m'[b].used && Suits(m'[b].levels, free'[b]) {
      assert b != a ==> SameHeader(m, m', b);
    }
    forall b | b in used ensures m'[b].size == used[b] && m'[b].used {
      assert SameHeader(m, m', b);
    }
    assert SameHeader(m, m', HEAD);
  }

  /** Block `b` has kept its size and state and, unless it is the head, its levels. */
  ghost predicate SameHeader(m: Memory, n: Memory, b: int) {
    b in m && b in n && n[b].size == m[b].size && n[b].used == m[b].used && (b != HEAD ==> n[b].levels == m[b].levels)
  }

  /** The size of the block that a request needs. */
  function BlockSize(request: nat): nat {
    RoundUp(request + HEADER, ROUND_UP)
  }

  /** The size of the region that is mapped when no free block is large enough. */
  function RegionSize(request: nat, pageSize: nat): nat {
    if pageSize * 16 <= TWO_64 then RoundUp(BlockSize(request), pageSize * 16) else 0
  }

  lemma SizesRounded(request: nat, pageSize: nat)
    requires IsPow2(pageSize) && pageSize % 2 == 0 && request + 16 * pageSize + 64 <= TWO_64
    ensures var req := BlockSize(request);
            req % ROUND_UP == 0 && req >= request + HEADER && (request > 0 ==> req >= MIN_SIZE) &&
            RegionSize(request, pageSize) % ROUND_UP == 0 && RegionSize(request, pageSize) >= req && req + pageSize * 16 <= TWO_64
  {
    hide RoundUp;
    assert IsPow2(4) && IsPow2(16) && IsPow2(32);
    RoundsUp(request + HEADER, ROUND_UP);
    PowTimes(16, pageSize);
    RoundsUp(BlockSize(request), 16 * pageSize);
    assert 16 * pageSize == 32 * (pageSize / 2);
    ModThrough(RegionSize(request, pageSize), 32, pageSize / 2);
  }

  /** What the sizes are: a block is the least multiple of 32 with room for a header of 32 bytes and the request, and a region the
      least multiple of sixteen pages with room for the block. */
  lemma SizesExact(request: nat, pageSize: nat)
    requires IsPow2(pageSize) && pageSize % 2 == 0 && request + 16 * pageSize + 64 <= TWO_64
    ensures BlockSize(request) % 32 == 0 && request + 32 <= BlockSize(request) < request + 64
    ensures RegionSize(request, pageSize) % (16 * pageSize) == 0
    ensures BlockSize(request) <= RegionSize(request, pageSize) < BlockSize(request) + 16 * pageSize
  {
    hide RoundUp;
    assert IsPow2(4) && IsPow2(16) && IsPow2(32);
    RoundsUp(request + HEADER, ROUND_UP);
    PowTimes(16, pageSize);
    RoundsUp(BlockSize(request), 16 * pageSize);
  }

  /** What a free does to the free blocks, in one step: the block is joined with the free block that ends where it begins and with
      the one that begins where it ends. */
  lemma FreedExact(m: Blocks, f: int, size: int, p: int)
    requires Separate(m[f := size]) && Canonical(m) && f !in m && IsBefore(m.Keys, p, f)
    ensures var start := if p in m && p + m[p] == f then p else f;
            var end := if f + size in m then f + size + m[f + size] else f + size;
            Freed(m, f, size, p) == (m - {f + size})[start := end - start]
  {
    var m1 := m[f := size];
    var m2 := Coalesced(m1, f);
    assert m2 == (m - {f + size})[f := if f + size in m then size + m[f + size] else size];
    if p in m {
      assert p in m2 && m2[p] == m[p];
      assert m[p] > 0;
      assert p + m[p] in m2 ==> p + m[p] == f;
    } else {
      assert p == 0;
    }
  }

  ghost predicate HasFit(free: Blocks, req: int) {
    exists b :: b in free && free[b] >= req
  }

  /** No free block was large enough, and a new region has been added. */
  ghost predicate Enlarged(free: Blocks, pool: Blocks, p: int, request: nat, pageSize: nat, base: int) {
    && !HasFit(free, BlockSize(request)) && HasFit(pool, BlockSize(request)) && IsBefore(free.Keys, p, base)
    && pool == Freed(free, base, RegionSize(request, pageSize), p)
  }

  /** Block `s` was the first fit, and a region was mapped only because nothing fitted. */
  ghost predicate Chosen(free: Blocks, pool: Blocks, mapped: bool, p: int, request: nat, pageSize: nat, base: int, s: int) {
    && (if mapped then Enlarged(free, pool, p, request, pageSize, base) else pool == free)
    && s != 0 && IsFirstFit(pool, BlockSize(request), s) && s in pool
  }

  /** An allocation: the first fit leaves the free blocks and joins the used ones, with at least the bytes requested behind its header. */
  ghost predicate Allocated(free: Blocks, used: Blocks, free': Blocks, used': Blocks, mapped: bool, pool: Blocks, p: int,
                            request: nat, pageSize: nat, base: int, v: int) {
    var s, req := v - HEADER, BlockSize(request);
    && Chosen(free, pool, mapped, p, request, pageSize, base, s)
    && s > 0 && s % ROUND_UP == 0 && s !in used && Given(pool[s], req) >= request + HEADER
    && used' == used[s := Given(pool[s], req)] && free' == Remaining(pool, s, req)
  }

  /** A region is mapped exactly if no free block is large enough; it is joined with the free blocks on either side of it. */
  lemma MappedExact(free: Blocks, pool: Blocks, mapped: bool, p: int, request: nat, pageSize: nat, base: int, s: int)
    requires Chosen(free, pool, mapped, p, request, pageSize, base, s)
    requires Canonical(free) && base !in free && Separate(free[base := RegionSize(request, pageSize)])
    ensures mapped <==> forall b :: b in free ==> free[b] < BlockSize(request)
    ensures !mapped ==> pool == free
    ensures mapped ==> (p == 0 || p in free) && p < base && forall r :: r in free && r < base ==> r <= p
    ensures mapped ==> var size := RegionSize(request, pageSize);
                       var start := if p in free && p + free[p] == base then p else base;
                       var end := if base + size in free then base + size + free[base + size] else base + size;
                       pool == (free - {base + size})[start := end - start]
  {
    if mapped { FreedExact(free, base, RegionSize(request, pageSize), p); }
    hide BlockSize, RegionSize, Freed, Separate, Canonical;
  }

  /** An allocation takes the lowest-addressed block that has room; what it does not need stays free if it is at least 64 bytes. */
  lemma AllocatedExact(free: Blocks, used: Blocks, free': Blocks, used': Blocks, mapped: bool, pool: Blocks, p: int,
                       request: nat, pageSize: nat, base: int, v: int)
    requires Allocated(free, used, free', used', mapped, pool, p, request, pageSize, base, v)
    ensures var s, need := v - 32, BlockSize(request);
            && s in pool && pool[s] >= need && (forall b :: b in pool && pool[b] >= need ==> s <= b)
            && used' == used[s := if pool[s] - need >= 64 then need else pool[s]]
            && free' == if pool[s] - need >= 64 then (pool - {s})[s + need := pool[s] - need] else pool - {s}
  {
    hide BlockSize, RegionSize, Freed, Enlarged;
  }

  /** An allocation that needs no new region, followed by the free of its block, leaves exactly the blocks of before. */
  lemma AllocThenFree(free: Blocks, used: Blocks, free': Blocks, used': Blocks, p: int, request: nat, pageSize: nat, base: int, v: int, q: int)
    requires Separate(free) && Canonical(free) && BlockSize(request) > 0
    requires Allocated(free, used, free', used', false, free, p, request, pageSize, base, v) && IsBefore(free'.Keys, q, v - HEADER)
    ensures Freed(free', v - HEADER, used'[v - HEADER], q) == free && used' - {v - HEADER} == used
  {
    hide Freed, Remaining, Canonical, Separate, BlockSize;
    FreeUndoesAlloc(free, v - HEADER, BlockSize(request), q);
  }

  class Arena {
    const list: SkipList
    const pageSize: nat
    var allocationCount: int

    /** The free and the allocated blocks, and all bytes obtained from the system so far. */
    ghost var free: Blocks
    ghost var used: Blocks
    ghost var owned: iset<int>

    /** What holds between the steps of one operation. */
    ghost predicate Sane()
      reads this, list
    {
      list.Valid() && list.listed == free.Keys && Mirrored(list.mem, free, used) && Tiled(free, used, owned)
    }

    ghost predicate Valid()
      reads this, list
    {
      Sane() && Canonical(free) && allocationCount == |used| && IsPow2(pageSize) && pageSize % 2 == 0
    }

    constructor (pageSize: nat)
      requires IsPow2(pageSize) && pageSize % 2 == 0
      ensures Valid() && free == map[] && used == map[] && owned == iset{} && allocationCount == 0 && this.pageSize == pageSize && fresh(list)
    {
      list := new SkipList();
      this.pageSize := pageSize;
      allocationCount := 0;
      free, used, owned := map[], map[], iset{};
      new;
      assert free + used == map[];
      assert Bytes(free + used) == iset{};
    }

    /** Merges free block `a` with its successor on the list if they are adjacent. */
    method Coalesce(a: int)
      requires Sane() && (a == HEAD || a in free)
      modifies this`free, list
      ensures Sane() && free == Coalesced(old(free), a)
    {
      hide Linked, Tight, Tiled, Mirrored, Coalesced, IsNext, Suits, SameHeader, Separate;
      TiledCoalesced(free, used, owned, a);
      TiledParts(free, used, owned);
      MirrorSize(list.mem, free, used, a);
      CoalescedKeys(free, a);
      BottomLevel(list.mem, list.listed);
      NextOf(list.mem, list.listed, a);
      var n := list.mem[a].next[0];
      NextAdjacent(free, a, n);
      if n != 0 && a + list.mem[a].size == n {
        ghost var m := list.mem;
        Merge(a, n);
        MirrorCoalesced(m, list.mem, free, used, a, n);
        free := Coalesced(free, a);
      }
    }

    /** Block `a` swallows its successor `n`, and its place on the list is rebuilt for the new size. */
    method Merge(a: int, n: int)
      requires list.Valid() && a in list.listed && n in list.listed && a != n && a > 0 && n > 0
      requires list.mem[a].size >= MIN_SIZE && list.mem[n].size >= MIN_SIZE
      modifies list
      ensures list.Valid() && list.listed == old(list.listed) - {n} && list.mem.Keys == old(list.mem).Keys - {n}
      ensures a in list.mem && HEAD in list.mem && list.mem[a].size == old(list.mem[a].size + list.mem[n].size)
      ensures list.mem[a].used == old(list.mem[a].used) && Suits(list.mem[a].levels, list.mem[a].size)
      ensures forall b :: b in list.mem && b != a ==> SameHeader(old(list.mem), list.mem, b)
    {
      hide Linked, Tight, Level, Suits;
      InMemory(list.mem, list.listed, a);
      InMemory(list.mem, list.listed, n);
      list.Write(a, list.mem[a].(size := list.mem[a].size + list.mem[n].size));
      list.Delete(n);
      list.Erase(n);
      list.Delete(a);
      var levels := SkiplistLevels(list.mem[a].size, true);
      SuitsRange(levels, list.mem[a].size);
      list.Write(a, list.mem[a].(levels := levels, next := seq(levels, _ => 0)));
      var prev := list.Insert(a);
    }

    /** Puts used block `f` on the free list and merges it with its neighbours. */
    method AddToFreelist(f: int) returns (ghost p: int)
      requires Sane() && Canonical(free) && f in used
      modifies this`free, this`used, list
      ensures Sane() && Canonical(free) && used == old(used) - {f}
      ensures IsBefore(old(free).Keys, p, f) && free == Freed(old(free), f, old(used)[f], p)
      ensures Bytes(free) == old(Bytes(free)) + Range(f, old(used)[f])
      ensures exists b :: b in free && free[b] >= old(used)[f]
    {
      hide Linked, Tight, Tiled, Mirrored, Coalesced, Suits, SameHeader, Separate, Canonical;
      ghost var free0, size := free, used[f];
      TiledGiven(free, used, owned, f);
      UsedParts(free, used, owned, list.mem, f);
      var prev := PutOnList(f);
      p := prev;
      free, used := free[f := used[f]], used - {f};
      TiledParts(free, used, owned);
      FreedCanonical(free0, f, size, p);
      FreedBytes(free0, f, size, p);
      CoalescedKeys(free, f);
      Coalesce(f);
      Coalesce(prev);
    }

    /** Gives the header of used block `f` its levels, puts it on the list and marks it as free. */
    method PutOnList(f: int) returns (prev: int)
      requires Sane() && f in used
      modifies list
      ensures list.Valid() && list.listed == old(list.listed) + {f} && IsBefore(old(list.listed), prev, f)
      ensures Mirrored(list.mem, free[f := used[f]], used - {f})
    {
      hide Linked, Tight, Level, Tiled, Suits, Mirrored;
      ghost var m := list.mem;
      UsedParts(free, used, owned, m, f);
      var levels := SkiplistLevels(list.mem[f].size, true);
      SuitsRange(levels, list.mem[f].size);
      list.Write(f, list.mem[f].(levels := levels, next := seq(levels, _ => 0)));
      var before := list.Insert(f);
      prev := before[0];
      list.Write(f, list.mem[f].(used := false));
      MirrorGiven(m, list.mem, free, used, f);
    }

    /** Frees the block that was returned as `v`; null is ignored. */
    method Free(v: int) returns (ghost p: int)
      requires Valid() && (v == 0 || v - HEADER in used)
      modifies this, list
      ensures Valid() && owned == old(owned)
      ensures if v == 0 then free == old(free) && used == old(used)
              else var f := v - HEADER;
                   && used == old(used) - {f} && IsBefore(old(free).Keys, p, f)
                   && free == Freed(old(free), f, old(used)[f], p) && Bytes(free) == old(Bytes(free)) + Range(f, old(used)[f])
      ensures allocationCount == old(allocationCount) - if v == 0 then 0 else 1
    {
      hide Linked, Tight, Tiled, Mirrored, Canonical, Freed, Bytes, IsPow2;
      p := 0;
      if v != 0 {
        p := AddToFreelist(v - HEADER);
        assert allocationCount > 0;
        allocationCount := allocationCount - 1;
      }
    }

    /** The element after `prev` on level `i`. The free list is in order, its elements are free, and no two are adjacent. */
    method Next(i: int, prev: int) returns (next: int)
      requires Sane() && Canonical(free) && 0 <= i < Levels(list.mem, prev) && (prev == HEAD || prev in free)
      ensures IsNext(High(list.mem, list.listed, i), prev, next)
    {
      hide Tight, Tiled, Canonical, Suits;
      TiledParts(free, used, owned);
      LevelNext(list.mem, list.listed, prev, i);
      next := list.mem[prev].next[i];
      if next != 0 {
        NotAdjacent(free, prev, next);
        assert !list.mem[next].used;
        assert prev != HEAD ==> prev < next && prev + list.mem[prev].size < next;
      }
    }

    /** Walks level `level` of the free list to the first block of at least `req` bytes. */
    method FirstFit(level: int, req: int) returns (s: int)
      requires Sane() && Canonical(free) && req >= MIN_SIZE && level == LevelsFor(req, 1) - 1 && 0 <= level < Levels(list.mem, HEAD)
      ensures IsFirstFit(free, req, s)
    {
      hide Linked, Tight, Tiled, Canonical, Suits, LevelsFor, Mirrored;
      ghost var high := High(list.mem, list.listed, level);
      MirrorSize(list.mem, free, used, HEAD);
      TiledParts(free, used, owned);
      FitsAreHigh(list.mem, free, used, req, level);
      var before := HEAD;
      s := Next(level, before);
      while s != 0 && list.mem[s].size < req
        invariant (before == HEAD || before in high) && IsNext(high, before, s)
        invariant forall b :: b in free && free[b] >= req ==> b in high && b > before
        decreases set r | r in high && r > before
      {
        ghost var rest := set r | r in high && r > before;
        assert s in rest;
        before := s;
        s := Next(level, before);
      }
    }

    /** Adds a fresh region to the free list, as if freeing one large block. */
    method MapRegion(base: int, size: int) returns (ghost p: int)
      requires Sane() && Canonical(free) && base > 0 && base % ROUND_UP == 0 && size % ROUND_UP == 0 && size >= MIN_SIZE
      requires Range(base, size) !! owned
      modifies this`free, this`used, this`owned, list
      ensures Sane() && Canonical(free) && used == old(used) && owned == old(owned) + Range(base, size)
      ensures IsBefore(old(free).Keys, p, base) && free == Freed(old(free), base, size, p)
      ensures exists b :: b in free && free[b] >= size
    {
      hide Linked, Tight, Tiled, Mirrored, Canonical, Freed, Bytes, Range;
      TiledMapped(free, used, owned, base, size);
      MirrorAdded(list.mem, free, used, base, size);
      list.Write(base, Block(size, true, 0, []));
      ghost var used0 := used;
      used, owned := used[base := size], owned + Range(base, size);
      p := AddToFreelist(base);
      assert used == used0;
    }

    /** Takes block `s` off the free list for a request of `req` bytes, and gives back what exceeds the request if it is enough for a block. */
    method Take(s: int, req: int)
      requires Sane() && Canonical(free) && s in free && MIN_SIZE <= req <= free[s] && req % ROUND_UP == 0
      modifies this`free, this`used, list
      ensures Sane() && Canonical(free) && s !in old(used)
      ensures used == old(used)[s := Given(old(free)[s], req)] && free == Remaining(old(free), s, req)
    {
      hide Linked, Tight, Tiled, Mirrored, Canonical, Freed;
      ghost var free0, used0, m := free, used, list.mem;
      TiledParts(free, used, owned);
      TiledTaken(free, used, owned, s);
      MirrorSize(m, free, used, s);
      RemainingCanonical(free, s, req);
      RemainingCanonical(free, s, free[s]);
      list.Delete(s);
      list.Write(s, list.mem[s].(used := true));
      MirrorTaken(m, list.mem, free, used, s);
      free, used := free - {s}, used[s := free[s]];
      if req + MIN_SIZE <= list.mem[s].size {
        var p := Split(s, req);
        RestAlone(free0, s, req, p);
      }
      assert used == used0[s := Given(free0[s], req)];
    }

    /** Cuts used block `s` down to `req` bytes and frees the rest. */
    method Split(s: int, req: int) returns (ghost p: int)
      requires Sane() && Canonical(free) && s in used && req % ROUND_UP == 0 && MIN_SIZE <= req && req + MIN_SIZE <= used[s]
      modifies this`free, this`used, list
      ensures Sane() && Canonical(free) && used == old(used)[s := req]
      ensures IsBefore(old(free).Keys, p, s + req) && free == Freed(old(free), s + req, old(used)[s] - req, p)
    {
      hide Linked, Tight, Tiled, Mirrored, Canonical, Freed, Bytes;
      UsedParts(free, used, owned, list.mem, s);
      TiledSplit(free, used, owned, s, req);
      MirrorSplit(list.mem, free, used, s, req);
      ghost var used0 := used;
      var n := s + req;
      list.Write(n, Block(list.mem[s].size - req, true, 0, []));
      list.Write(s, list.mem[s].(size := req));
      used := used[s := req][n := used[s] - req];
      p := AddToFreelist(n);
      assert used == used0[s := req];
    }

    /** The lowest-addressed free block of at least `req` bytes, after mapping a region at `base` if there is none. */
    method FindBlock(request: nat, base: int) returns (s: int, ghost mapped: bool, ghost p: int, ghost size: nat)
      requires Valid() && 0 < request && request + 16 * pageSize + 64 <= TWO_64
      requires base > 0 && base % ROUND_UP == 0 && Range(base, RegionSize(request, pageSize)) !! owned
      modifies this`free, this`used, this`owned, list
      ensures Sane() && Canonical(free) && used == old(used)
      ensures Chosen(old(free), free, mapped, p, request, pageSize, base, s)
      ensures owned == if mapped then old(owned) + Range(base, size) else old(owned)
      ensures size % (16 * pageSize) == 0 && request + 32 <= size < request + 64 + 16 * pageSize && size == RegionSize(request, pageSize)
      ensures s in free && free[s] >= request + 32 && forall b :: b in free && b < s ==> free[b] < request + 64
      ensures mapped <==> forall b :: b in old(free) ==> old(free)[b] < BlockSize(request)
    {
      hide Linked, Tiled, Mirrored, Canonical, Freed, Bytes, Range, RoundUp, IsPow2, LevelsFor, Suits;
      SizesRounded(request, pageSize);
      SizesExact(request, pageSize);
      size := RegionSize(request, pageSize);
      s, mapped, p := 0, false, 0;
      var req := RoundUp(request + HEADER, ROUND_UP);
      while true
        invariant Sane() && Canonical(free) && used == old(used)
        invariant if mapped then Enlarged(old(free), free, p, request, pageSize, base) else free == old(free)
        invariant owned == if mapped then old(owned) + Range(base, RegionSize(request, pageSize)) else old(owned)
        decreases if mapped then 0 else 1
      {
        var levels := SkiplistLevels(req, false);
        var i := levels - 1;
        if i < Levels(list.mem, HEAD) {
          s := FirstFit(i, req);
          if s != 0 { break; }
        } else {
          NoneHigh(list.mem, free, used, req, i);
        }
        var newPagesSize := RoundUp(req, pageSize * 16);
        p := MapRegion(base, newPagesSize);
        mapped := true;
      }
    }

    /** Allocates a block with room for `request` bytes and returns its address behind the header; nothing for no bytes.
        `base` is where the system would map a new region, should one be needed. `pool` are the free blocks when the block was
        chosen, `need` the bytes the block has to have, and `size` those of the region. */
    method Alloc(request: nat, base: int) returns (v: int, ghost mapped: bool, ghost pool: Blocks, ghost p: int, ghost need: nat, ghost size: nat)
      requires Valid() && request + 16 * pageSize + 64 <= TWO_64
      requires base > 0 && base % ROUND_UP == 0 && Range(base, RegionSize(request, pageSize)) !! owned
      modifies this, list
      ensures Valid() && owned == if mapped then old(owned) + Range(base, size) else old(owned)
      ensures if request == 0 then v == 0 && !mapped && free == old(free) && used == old(used)
              else Allocated(old(free), old(used), free, used, mapped, pool, p, request, pageSize, base, v)
      ensures allocationCount == old(allocationCount) + if request == 0 then 0 else 1
      ensures request > 0 ==> need % 32 == 0 && request + 32 <= need < request + 64
      ensures request > 0 ==> size % (16 * pageSize) == 0 && need <= size < need + 16 * pageSize
      ensures request > 0 ==> v - 32 in used && v - 32 in pool && used[v - 32] == if pool[v - 32] - need >= 64 then need else pool[v - 32]
      ensures request > 0 ==> (mapped <==> forall b :: b in old(free) ==> old(free)[b] < need)
    {
      hide Linked, Tight, Tiled, Mirrored, Canonical, Freed, Bytes, Range, RoundUp, IsPow2, Remaining, Enlarged;
      need, size := BlockSize(request), 0;
      if request == 0 { return 0, false, free, 0, need, size; }
      SizesRounded(request, pageSize);
      SizesExact(request, pageSize);
      var s;
      s, mapped, p, size := FindBlock(request, base);
      pool := free;
      BlockOnGrid(free, used, owned, s);
      Take(s, RoundUp(request + HEADER, ROUND_UP));
      allocationCount := allocationCount + 1;
      v := s + HEADER;
    }
  }

  /** The headers after used block `f` has been put on the free list. */
  lemma MirrorGiven(m: Memory, m': Memory, free: Blocks, used: Blocks, f: int)
    requires Mirrored(m, free, used) && f in used && f != HEAD && f !in free
    requires m'.Keys == m.Keys && forall b :: b in m && b != f ==> SameHeader(m, m', b)
    requires m'[f].size == used[f] && !m'[f].used && Suits(m'[f].levels, used[f])
    ensures Mirrored(m', free[f := used[f]], used - {f})
  {
    assert SameHeader(m, m', HEAD);
    assert forall b :: b in free ==> SameHeader(m, m', b);
    assert forall b :: b in used && b != f ==> SameHeader(m, m', b);
  }

  lemma UsedParts(free: Blocks, used: Blocks, owned: iset<int>, m: Memory, f: int)
    requires Tiled(free, used, owned) && Mirrored(m, free, used) && f in used
    ensures f !in free && f > 0 && used[f] >= MIN_SIZE && f % ROUND_UP == 0 && f in m && m[f].size == used[f] && HEAD in m
    ensures Separate(free[f := used[f]]) && Separate(free)
  {
    TiledGiven(free, used, owned, f);
    SubSeparate(free[f := used[f]], used - {f});
    SubSeparate(free, used);
    assert f in free + used;
  }

  lemma MirrorAdded(m: Memory, free: Blocks, used: Blocks, b: int, size: int)
    requires Mirrored(m, free, used) && b > 0 && b !in free && b !in used
    ensures Mirrored(m[b := Block(size, true, 0, [])], free, used[b := size])
  {
  }

  lemma MirrorTaken(m: Memory, m': Memory, free: Blocks, used: Blocks, s: int)
    requires Mirrored(m, free, used) && s in free && s != HEAD && s !in used
    requires m'.Keys == m.Keys && (forall b :: b in m && b != s ==> SameHeader(m, m', b)) && m'[s].size == free[s] && m'[s].used
    ensures Mirrored(m', free - {s}, used[s := free[s]])
  {
    assert SameHeader(m, m', HEAD);
    assert forall b :: b in free && b != s ==> SameHeader(m, m', b);
    assert forall b :: b in used ==> SameHeader(m, m', b);
  }

  lemma MirrorSplit(m: Memory, free: Blocks, used: Blocks, s: int, req: int)
    requires Mirrored(m, free, used) && s in used && s > 0 && s !in free && req > 0 && s + req !in free && s + req !in used
    ensures s in m && m[s].size == used[s] && s + req !in m
    ensures var n := s + req; Mirrored(m[n := Block(m[s].size - req, true, 0, [])][s := m[s].(size := req)], free, used[s := req][n := used[s] - req])
  {
  }

  /** When the search level is not in use, no free block is large enough. */
  lemma NoneHigh(m: Memory, free: Blocks, used: Blocks, req: int, level: int)
    requires Mirrored(m, free, used) && Tight(m, free.Keys) && req >= MIN_SIZE && level == LevelsFor(req, 1) - 1 && level >= Levels(m, HEAD)
    ensures !HasFit(free, req)
  {
    FitsAreHigh(m, free, used, req, level);
  }

  lemma BlockOnGrid(free: Blocks, used: Blocks, owned: iset<int>, s: int)
    requires Tiled(free, used, owned) && s in free
    ensures s % ROUND_UP == 0 && s > 0 && s !in used
  {
    assert s in free + used;
  }

  lemma LevelNext(m: Memory, listed: set<int>, p: int, i: int)
    requires Linked(m, listed) && 0 <= i < Levels(m, p) && (p == HEAD || p in listed)
    ensures p in m && i < |m[p].next| && IsNext(High(m, listed, i), p, m[p].next[i])
  {
    hide IsNext;
    assert i < MAX_LEVEL && (p in listed ==> p in High(m, listed, i));
    assert Level(m, High(m, listed, i), i) && Link(m, p, i) == m[p].next[i];
  }

  lemma NotAdjacent(free: Blocks, p: int, n: int)
    requires Separate(free) && Canonical(free) && p < n && n in free
    ensures p in free ==> p + free[p] < n
  {
  }

  /** Every free block that is large enough is linked at the level a search for `req` bytes uses. */
  lemma FitsAreHigh(m: Memory, free: Blocks, used: Blocks, req: int, level: int)
    requires Mirrored(m, free, used) && req >= MIN_SIZE && level == LevelsFor(req, 1) - 1
    ensures forall b :: b in free && free[b] >= req ==> b in High(m, free.Keys, level)
  {
    forall b | b in free && free[b] >= req ensures b in High(m, free.Keys, level) {
      LevelsMonotone(req, free[b], 1);
    }
  }

  lemma MirrorSize(m: Memory, free: Blocks, used: Blocks, a: int)
    requires Mirrored(m, free, used) && (a == HEAD || a in free)
    ensures a == HEAD && a !in free ==> m[a].size == 0
    ensures forall b :: b in free ==> b in m && m[b].size == free[b] && !m[b].used
    ensures HEAD in m
  {
  }

  lemma CoalescedKeys(free: Blocks, a: int)
    requires a in free ==> free[a] > 0
    ensures Coalesced(free, a).Keys == if a in free && a + free[a] in free then free.Keys - {a + free[a]} else free.Keys
    ensures !(a in free && a + free[a] in free) ==> Coalesced(free, a) == free
  {
  }

  lemma SuitsRange(levels: int, size: int)
    requires Suits(levels, size)
    ensures levels < MAX_LEVEL
  {
  }

  lemma InMemory(m: Memory, listed: set<int>, a: int)
    requires Linked(m, listed) && a in listed
    ensures a in m && HEAD in m && a != HEAD
  {
  }

  lemma NextOf(m: Memory, listed: set<int>, a: int)
    requires Linked(m, listed) && (a == HEAD || a in listed)
    ensures a in m && |m[a].next| > 0 && IsNext(listed, a, m[a].next[0])
  {
    BottomLevel(m, listed);
  }

  lemma TiledParts(free: Blocks, used: Blocks, owned: iset<int>)
    requires Tiled(free, used, owned)
    ensures Separate(free) && free.Keys !! used.Keys && forall b :: b in free ==> b > 0 && free[b] >= MIN_SIZE
  {
    SubSeparate(free, used);
    assert forall b :: b in free ==> b in free + used;
  }
}
