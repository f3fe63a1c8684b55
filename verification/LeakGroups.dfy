/** The leak report: per allocating function the number of leaks, their bytes, and the ten largest call stacks. */
module LeakGroups {

  const SLOTS := 10

  /** A block that has not been freed; the hash stands for its call stack and is 0 when none was collected. */
  datatype Record = Record(api: nat, size: nat, hash: nat)

  datatype Slot = Slot(size: nat, hash: nat)

  datatype Info = Info(api: nat, totalBytes: nat, hitCount: nat, slots: seq<Slot>)

  const EMPTY := Slot(0, 0)

  ghost function Last<T>(s: seq<T>): T
    requires s != []
  {
    s[|s| - 1]
  }

  ghost function Front<T>(s: seq<T>): seq<T>
    requires s != []
  {
    s[..|s| - 1]
  }

  /** The largest block that a function has allocated under a call stack; 0 if there is none. */
  ghost function Largest(rs: seq<Record>, f: nat, h: nat): nat {
    if rs == [] then 0
    else Maximum(Largest(Front(rs), f, h), if Last(rs).api == f && Last(rs).hash == h then Last(rs).size else 0)
  }

  function Maximum(a: nat, b: nat): nat {
    if a < b then b else a
  }

  ghost function Hits(rs: seq<Record>, f: nat): nat {
    if rs == [] then 0 else Hits(Front(rs), f) + if Last(rs).api == f then 1 else 0
  }

  ghost function Bytes(rs: seq<Record>, f: nat): nat {
    if rs == [] then 0 else Bytes(Front(rs), f) + if Last(rs).api == f then Last(rs).size else 0
  }

  ghost function AllBytes(rs: seq<Record>): nat {
    if rs == [] then 0 else AllBytes(Front(rs)) + Last(rs).size
  }

  ghost predicate Stored(slots: seq<Slot>, h: nat) {
    exists i :: 0 <= i < |slots| && slots[i].size > 0 && slots[i].hash == h
  }

  /** The slots hold the ten call stacks with the largest blocks, each once and with its largest block; they are filled from the front. */
  ghost predicate IsTop(slots: seq<Slot>, largest: nat -> nat) {
    && |slots| == SLOTS
    && (forall i :: 0 <= i < SLOTS ==> if slots[i].size == 0 then slots[i] == EMPTY else slots[i].size == largest(slots[i].hash))
    && (forall i, j :: 0 <= i < j < SLOTS && slots[j].size > 0 ==> slots[i].size > 0 && slots[i].hash != slots[j].hash)
    && (forall h :: largest(h) > 0 && !Stored(slots, h) ==> forall i :: 0 <= i < SLOTS ==> slots[i].size >= largest(h))
  }

  ghost predicate Describes(info: Info, rs: seq<Record>, f: nat) {
    && info.api == f && info.hitCount == Hits(rs, f) && info.totalBytes == Bytes(rs, f)
    && IsTop(info.slots, h => Largest(rs, f, h))
  }

  /** The first slot with this hash, or their number. */
  function Lookup(slots: seq<Slot>, hash: nat): (i: nat)
    ensures i <= |slots| && (i < |slots| ==> slots[i].hash == hash) && forall j :: 0 <= j < i ==> slots[j].hash != hash
  {
    if slots == [] || slots[0].hash == hash then 0 else 1 + Lookup(slots[1..], hash)
  }

  /** `m` is the first of the smallest slots. */
  ghost predicate IsSmallest(slots: seq<Slot>, m: int) {
    0 <= m < |slots| && (forall j :: 0 <= j < |slots| ==> slots[m].size <= slots[j].size) && forall j :: 0 <= j < m ==> slots[j].size > slots[m].size
  }

  /** Taking in one more block: a known call stack is raised, an unknown one replaces the smallest if it is larger. */
  ghost function Placed(slots: seq<Slot>, size: nat, hash: nat, m: nat): seq<Slot>
    requires m < |slots|
  {
    var i := Lookup(slots, hash);
    var at := if i < |slots| then i else m;
    if size > slots[at].size then slots[at := Slot(size, hash)] else slots
  }

  ghost predicate Raised(largest: nat -> nat, largest': nat -> nat, size: nat, hash: nat) {
    forall h :: largest'(h) == if h == hash then Maximum(largest(h), size) else largest(h)
  }

  /** The call stack with the new block takes slot `at`: its own, an empty one, or the smallest. */
  lemma SetTop(slots: seq<Slot>, largest: nat -> nat, largest': nat -> nat, size: nat, hash: nat, at: nat)
    requires IsTop(slots, largest) && Raised(largest, largest', size, hash) && at < SLOTS && size > slots[at].size
    requires forall j :: 0 <= j < at ==> slots[j].size > 0
    requires forall j :: 0 <= j < SLOTS && j != at && slots[j].size > 0 ==> slots[j].hash != hash
    requires largest(hash) <= size
    requires slots[at].size == 0 || slots[at].hash == hash || forall j :: 0 <= j < SLOTS ==> slots[at].size <= slots[j].size
    ensures IsTop(slots[at := Slot(size, hash)], largest')
  {
    var s' := slots[at := Slot(size, hash)];
    assert s'[at].size > 0 && s'[at].hash == hash;
    forall h | largest'(h) > 0 && !Stored(s', h) ensures forall i :: 0 <= i < SLOTS ==> s'[i].size >= largest'(h) {
      if Stored(slots, h) {
        var i :| 0 <= i < |slots| && slots[i].size > 0 && slots[i].hash == h;
        assert s'[i] == slots[i] || i == at;
      }
    }
  }

  lemma KeepTop(slots: seq<Slot>, largest: nat -> nat, largest': nat -> nat, size: nat, hash: nat)
    requires IsTop(slots, largest) && Raised(largest, largest', size, hash)
    requires if Stored(slots, hash) then size <= largest(hash) else forall j :: 0 <= j < SLOTS ==> slots[j].size >= size
    ensures IsTop(slots, largest')
  {
    forall i | 0 <= i < SLOTS && slots[i].size > 0 ensures slots[i].size == largest'(slots[i].hash) {
      assert slots[i].hash == hash ==> Stored(slots, hash);
    }
  }

  /** While a slot is empty, every call stack with a non-empty block has a slot. */
  lemma NotStored(slots: seq<Slot>, largest: nat -> nat, h: nat, i: nat)
    requires IsTop(slots, largest) && !Stored(slots, h) && i < SLOTS
    ensures largest(h) <= slots[i].size
  {
  }

  lemma PlacedTop(slots: seq<Slot>, largest: nat -> nat, largest': nat -> nat, size: nat, hash: nat, m: nat)
    requires IsTop(slots, largest) && IsSmallest(slots, m) && Raised(largest, largest', size, hash)
    ensures IsTop(Placed(slots, size, hash, m), largest')
  {
    var i := Lookup(slots, hash);
    if i < SLOTS && slots[i].size > 0 {
      assert Stored(slots, hash);
      if size > slots[i].size { SetTop(slots, largest, largest', size, hash, i); } else { KeepTop(slots, largest, largest', size, hash); }
    } else {
      assert !Stored(slots, hash) by { NoFilled(slots, largest, hash); }
      var at := if i < SLOTS then i else m;
      NotStored(slots, largest, hash, at);
      if size > slots[at].size { SetTop(slots, largest, largest', size, hash, at); } else { KeepTop(slots, largest, largest', size, hash); }
    }
  }

  /** When the first slot that answers to a hash is not filled, none is. */
  lemma NoFilled(slots: seq<Slot>, largest: nat -> nat, hash: nat)
    requires IsTop(slots, largest)
    requires var i := Lookup(slots, hash); i < SLOTS ==> slots[i].size == 0
    ensures !Stored(slots, hash)
  {
  }

  /** Takes one block into the ten slots of its function. */
  method Place(slots0: seq<Slot>, size: nat, hash: nat) returns (slots: seq<Slot>)
    requires |slots0| == SLOTS
    ensures exists m :: IsSmallest(slots0, m) && slots == Placed(slots0, size, hash, m)
    ensures forall i :: 0 <= i < |slots0| && slots0[i].hash == hash && (forall j :: 0 <= j < i ==> slots0[j].hash != hash) ==>
              slots == if size > slots0[i].size then slots0[i := Slot(size, hash)] else slots0
    ensures (forall j :: 0 <= j < |slots0| ==> slots0[j].hash != hash) ==>
              exists m :: 0 <= m < |slots0| && (forall j :: 0 <= j < |slots0| ==> slots0[m].size <= slots0[j].size)
                && (forall j :: 0 <= j < m ==> slots0[j].size > slots0[m].size) && slots == if size > slots0[m].size then slots0[m := Slot(size, hash)] else slots0
  {
    slots := slots0;
    var found := 0;
    var foundViaHash := false;
    var i := 0;
    while i < |slots|
      invariant 0 <= i <= SLOTS && slots == slots0 && !foundViaHash && 0 <= found < SLOTS && (if i == 0 then found == 0 else found < i)
      invariant forall j :: 0 <= j < i ==> slots[j].hash != hash && slots[found].size <= slots[j].size
      invariant forall j :: 0 <= j < found ==> slots[j].size > slots[found].size
      decreases SLOTS - i
    {
      if slots[i].hash == hash {
        foundViaHash := true;
        if size > slots[i].size {
          slots := slots[i := slots[i].(size := size)];
        }
        break;
      }
      if slots[i].size < slots[found].size {
        found := i;
      }
      i := i + 1;
    }
    LookupIs(slots0, hash, i);
    ghost var m := SomeSmallest(slots0, if foundViaHash then 0 else found, foundViaHash);
    if !foundViaHash && size > slots[found].size {
      slots := slots[found := Slot(size, hash)];
    }
    assert IsSmallest(slots0, m) && slots == Placed(slots0, size, hash, m);
  }

  lemma LookupIs(slots: seq<Slot>, hash: nat, i: nat)
    requires i <= |slots| && (i < |slots| ==> slots[i].hash == hash) && forall j :: 0 <= j < i ==> slots[j].hash != hash
    ensures Lookup(slots, hash) == i
  {
  }

  lemma {:induction false} FirstSmallest(slots: seq<Slot>, n: nat) returns (m: nat)
    requires 0 < n <= |slots|
    ensures m < n && (forall j :: 0 <= j < n ==> slots[m].size <= slots[j].size) && forall j :: 0 <= j < m ==> slots[j].size > slots[m].size
  {
    if n == 1 {
      m := 0;
    } else {
      m := FirstSmallest(slots, n - 1);
      if slots[n - 1].size < slots[m].size { m := n - 1; }
    }
  }

  lemma SomeSmallest(slots: seq<Slot>, found: nat, known: bool) returns (m: nat)
    requires |slots| == SLOTS && (!known ==> IsSmallest(slots, found))
    ensures IsSmallest(slots, m) && (!known ==> m == found)
  {
    if known { m := FirstSmallest(slots, SLOTS); } else { m := found; }
  }

  /** Takes one record into the entry of its function. */
  method Count(infos: array<Info>, r: Record, ghost rs: seq<Record>)
    requires r.api < infos.Length && forall f :: 0 <= f < infos.Length ==> Describes(infos[f], rs, f)
    modifies infos
    ensures forall f :: 0 <= f < infos.Length ==> Describes(infos[f], rs + [r], f)
  {
    hide IsTop;
    var f := r.api;
    var info := infos[f];
    SlotCount(info, rs, f);
    var slots := Place(info.slots, r.size, r.hash);
    infos[f] := Info(info.api, info.totalBytes + r.size, info.hitCount + 1, slots);
    forall g | 0 <= g < infos.Length ensures Describes(infos[g], rs + [r], g) {
      assert Describes(old(infos[g]), rs, g);
      if g == f {
        var m :| IsSmallest(info.slots, m) && slots == Placed(info.slots, r.size, r.hash, m);
        Recorded(info, rs, r, m);
      } else {
        Unaffected(infos[g], rs, r, g);
      }
    }
  }

  lemma SlotCount(info: Info, rs: seq<Record>, f: nat)
    requires Describes(info, rs, f)
    ensures |info.slots| == SLOTS
  {
  }

  lemma Recorded(info: Info, rs: seq<Record>, r: Record, m: nat)
    requires Describes(info, rs, r.api) && IsSmallest(info.slots, m)
    ensures |info.slots| == SLOTS
    ensures Describes(Info(info.api, info.totalBytes + r.size, info.hitCount + 1, Placed(info.slots, r.size, r.hash, m)), rs + [r], r.api)
  {
    hide IsTop, Placed, IsSmallest;
    SlotCount(info, rs, r.api);
    assert Front(rs + [r]) == rs && Last(rs + [r]) == r;
    PlacedTop(info.slots, h => Largest(rs, r.api, h), h => Largest(rs + [r], r.api, h), r.size, r.hash, m);
  }

  lemma Unaffected(info: Info, rs: seq<Record>, r: Record, f: nat)
    requires Describes(info, rs, f) && r.api != f
    ensures Describes(info, rs + [r], f)
  {
    assert Front(rs + [r]) == rs && Last(rs + [r]) == r;
    var l, l' := h => Largest(rs, f, h), h => Largest(rs + [r], f, h);
    assert forall h :: l'(h) == l(h);
  }

  ghost predicate Descending(infos: seq<Info>) {
    forall i, j :: 0 <= i < j < |infos| ==> infos[i].totalBytes >= infos[j].totalBytes
  }

  /** Sorts by bytes, the largest first; entries with as many bytes may come in any order. */
  method SortByBytes(infos: array<Info>)
    modifies infos
    ensures Descending(infos[..]) && multiset(infos[..]) == multiset(old(infos[..]))
  {
    var sorted := Sorted(infos[..]);
    SortedSorts(infos[..]);
    assert |sorted| == infos.Length by { assert |multiset(sorted)| == |multiset(infos[..])|; }
    forall i | 0 <= i < infos.Length {
      infos[i] := sorted[i];
    }
    assert infos[..] == sorted;
  }

  function Inserted(s: seq<Info>, x: Info): seq<Info> {
    if s == [] || s[0].totalBytes <= x.totalBytes then [x] + s else [s[0]] + Inserted(s[1..], x)
  }

  function Sorted(s: seq<Info>): seq<Info> {
    if s == [] then [] else Inserted(Sorted(s[1..]), s[0])
  }

  lemma {:induction false} InsertedSorts(s: seq<Info>, x: Info)
    requires Descending(s)
    ensures Descending(Inserted(s, x))
  {
    if s != [] && s[0].totalBytes > x.totalBytes {
      InsertedSorts(s[1..], x);
      var t := Inserted(s[1..], x);
      InsertedKeeps(s[1..], x);
      forall i | 0 <= i < |t| ensures s[0].totalBytes >= t[i].totalBytes {
        assert t[i] in multiset(t);
      }
    }
  }

  lemma {:induction false} InsertedKeeps(s: seq<Info>, x: Info)
    ensures multiset(Inserted(s, x)) == multiset(s) + multiset{x}
  {
    if s != [] && s[0].totalBytes > x.totalBytes {
      InsertedKeeps(s[1..], x);
      assert s == [s[0]] + s[1..];
    }
  }

  lemma {:induction false} SortedSorts(s: seq<Info>)
    ensures Descending(Sorted(s)) && multiset(Sorted(s)) == multiset(s)
  {
    if s != [] {
      SortedSorts(s[1..]);
      InsertedSorts(Sorted(s[1..]), s[0]);
      InsertedKeeps(Sorted(s[1..]), s[0]);
      assert s == [s[0]] + s[1..];
    }
  }

  /** The call stacks among the first n slots that have a block of at least x bytes. */
  ghost function AtLeast(slots: seq<Slot>, x: nat, n: nat): set<nat>
    requires n <= |slots|
  {
    if n == 0 then {} else AtLeast(slots, x, n - 1) + if slots[n - 1].size >= x then {slots[n - 1].hash} else {}
  }

  ghost predicate Holds(slots: seq<Slot>, x: nat, n: nat, h: nat) {
    exists i :: 0 <= i < n && i < |slots| && slots[i].size >= x && slots[i].hash == h
  }

  lemma {:induction false} AtLeastHolds(slots: seq<Slot>, x: nat, n: nat, h: nat)
    requires n <= |slots|
    ensures h in AtLeast(slots, x, n) <==> Holds(slots, x, n, h)
  {
    if n > 0 {
      AtLeastHolds(slots, x, n - 1, h);
      assert slots[n - 1].size >= x && slots[n - 1].hash == h ==> Holds(slots, x, n, h);
    }
  }

  lemma {:induction false} AtLeastSize(slots: seq<Slot>, largest: nat -> nat, x: nat, n: nat)
    requires IsTop(slots, largest) && x > 0 && n <= SLOTS
    ensures |AtLeast(slots, x, n)| <= n && ((forall i :: 0 <= i < n ==> slots[i].size >= x) ==> |AtLeast(slots, x, n)| == n)
  {
    if n > 0 {
      AtLeastSize(slots, largest, x, n - 1);
      AtLeastHolds(slots, x, n - 1, slots[n - 1].hash);
    }
  }

  lemma {:induction false} SubsetSize(a: set<nat>, b: set<nat>)
    requires a <= b
    ensures |a| <= |b|
  {
    if h :| h in a { SubsetSize(a - {h}, b - {h}); }
  }

  /** What the largest block means: it bounds all blocks of that function and call stack, and is one of them. */
  lemma {:induction false} LargestIs(rs: seq<Record>, f: nat, h: nat)
    ensures forall r :: r in rs && r.api == f && r.hash == h ==> r.size <= Largest(rs, f, h)
    ensures Largest(rs, f, h) > 0 ==> Record(f, Largest(rs, f, h), h) in rs
  {
    if rs != [] {
      LargestIs(Front(rs), f, h);
      assert rs == Front(rs) + [Last(rs)];
    }
  }

  /** The call stacks under which a function has allocated a block that is not empty. */
  ghost function Stacks(rs: seq<Record>, f: nat): set<nat> {
    set r | r in rs && r.api == f && r.size > 0 :: r.hash
  }

  /** When a call stack with a non-empty block has no slot, all ten slots are taken by other ones. */
  lemma NoRoom(slots: seq<Slot>, rs: seq<Record>, f: nat, h: nat)
    requires IsTop(slots, h => Largest(rs, f, h)) && h in Stacks(rs, f) && !Stored(slots, h)
    ensures |Stacks(rs, f)| > 10
  {
    var l: nat -> nat, all := h => Largest(rs, f, h), AtLeast(slots, 1, SLOTS);
    LargestIs(rs, f, h);
    assert l(h) > 0;
    AtLeastSize(slots, l, 1, SLOTS);
    forall k | k in all ensures k in Stacks(rs, f) && k != h {
      AtLeastHolds(slots, 1, SLOTS, k);
      var i :| 0 <= i < SLOTS && slots[i].size >= 1 && slots[i].hash == k;
      assert slots[i].size == l(k);
      LargestIs(rs, f, k);
    }
    SubsetSize(all + {h}, Stacks(rs, f));
  }

  /** A function with at most ten call stacks that have non-empty blocks has a slot for each of them, which gives the size of
      its largest block. */
  lemma KeepsAll(info: Info, rs: seq<Record>, f: nat)
    requires Describes(info, rs, f)
    ensures |info.slots| == 10
    ensures |Stacks(rs, f)| <= 10 ==>
              forall r :: r in rs && r.api == f && r.size > 0 ==>
                exists i :: 0 <= i < 10 && info.slots[i].hash == r.hash && info.slots[i].size == Largest(rs, f, r.hash)
  {
    if |Stacks(rs, f)| <= 10 {
      forall r | r in rs && r.api == f && r.size > 0
        ensures exists i :: 0 <= i < 10 && info.slots[i].hash == r.hash && info.slots[i].size == Largest(rs, f, r.hash)
      {
        if !Stored(info.slots, r.hash) { NoRoom(info.slots, rs, f, r.hash); }
        var i :| 0 <= i < |info.slots| && info.slots[i].size > 0 && info.slots[i].hash == r.hash;
        assert (h => Largest(rs, f, h))(r.hash) == Largest(rs, f, r.hash);
      }
    }
  }

  /** Hits and bytes are sums over the records: one hit, and its bytes, for each record of the function. */
  lemma {:induction false} Additive(a: seq<Record>, b: seq<Record>, f: nat)
    ensures Hits(a + b, f) == Hits(a, f) + Hits(b, f) && Bytes(a + b, f) == Bytes(a, f) + Bytes(b, f) && AllBytes(a + b) == AllBytes(a) + AllBytes(b)
    ensures forall r :: Hits([r], f) == (if r.api == f then 1 else 0) && Bytes([r], f) == (if r.api == f then r.size else 0) && AllBytes([r]) == r.size
    decreases |b|
  {
    forall r ensures Hits([r], f) == (if r.api == f then 1 else 0) && Bytes([r], f) == (if r.api == f then r.size else 0) && AllBytes([r]) == r.size {
      assert Front([r]) == [] && Last([r]) == r;
    }
    if b == [] {
      assert a + b == a;
    } else {
      Additive(a, Front(b), f);
      assert Front(a + b) == a + Front(b) && Last(a + b) == Last(b);
    }
  }

  /** Groups all records, in whatever order they are visited, by function: `grouped` are the entries before they are sorted. */
  method GroupLeaks(infos: array<Info>, records: seq<Record>) returns (any: bool, ghost grouped: seq<Info>)
    requires forall f :: 0 <= f < infos.Length ==> infos[f] == Info(f, 0, 0, seq(SLOTS, _ => EMPTY))
    requires forall r :: r in records ==> r.api < infos.Length
    modifies infos
    ensures any <==> records != []
    ensures |grouped| == infos.Length && forall f :: 0 <= f < infos.Length ==> Describes(grouped[f], records, f)
    ensures forall f :: 0 <= f < infos.Length ==> |grouped[f].slots| == 10
    ensures forall f, r :: 0 <= f < infos.Length && |Stacks(records, f)| <= 10 && r in records && r.api == f && r.size > 0 ==>
              exists i :: 0 <= i < |grouped[f].slots| && grouped[f].slots[i].hash == r.hash && grouped[f].slots[i].size >= r.size
    ensures Descending(infos[..]) && multiset(infos[..]) == multiset(grouped)
  {
    hide IsTop, Describes;
    forall f | 0 <= f < infos.Length ensures Describes(infos[f], [], f) {
      NothingYet(infos[f], f);
    }
    for i := 0 to |records|
      invariant forall f :: 0 <= f < infos.Length ==> Describes(infos[f], records[..i], f)
    {
      assert records[i] in records;
      Count(infos, records[i], records[..i]);
      assert records[..i] + [records[i]] == records[..i + 1];
    }
    assert records[..|records|] == records;
    grouped := infos[..];
    forall f | 0 <= f < infos.Length ensures |grouped[f].slots| == 10 {
      KeepsAll(grouped[f], records, f);
    }
    forall f, r | 0 <= f < infos.Length && |Stacks(records, f)| <= 10 && r in records && r.api == f && r.size > 0
      ensures exists i :: 0 <= i < |grouped[f].slots| && grouped[f].slots[i].hash == r.hash && grouped[f].slots[i].size >= r.size
    {
      KeepsAll(grouped[f], records, f);
      LargestIs(records, f, r.hash);
    }
    SortByBytes(infos);
    any := |records| != 0;
  }

  lemma NothingYet(info: Info, f: nat)
    requires info == Info(f, 0, 0, seq(SLOTS, _ => EMPTY))
    ensures Describes(info, [], f)
  {
  }

  /** The bytes of all records, or of those of one function. */
  method AllocatedBytes(records: seq<Record>, every: bool, f: nat) returns (sum: nat)
    ensures sum == if every then AllBytes(records) else Bytes(records, f)
  {
    sum := 0;
    for i := 0 to |records|
      invariant sum == if every then AllBytes(records[..i]) else Bytes(records[..i], f)
    {
      assert Front(records[..i + 1]) == records[..i] && Last(records[..i + 1]) == records[i];
      if every || records[i].api == f {
        sum := sum + records[i].size;
      }
    }
    assert records[..|records|] == records;
  }

  ghost function SumHits(rs: seq<Record>, n: nat): nat {
    if n == 0 then 0 else SumHits(rs, n - 1) + Hits(rs, n - 1)
  }

  ghost function SumBytes(rs: seq<Record>, n: nat): nat {
    if n == 0 then 0 else SumBytes(rs, n - 1) + Bytes(rs, n - 1)
  }

  lemma {:induction false} SumsStep(rs: seq<Record>, n: nat)
    requires rs != []
    ensures SumHits(rs, n) == SumHits(Front(rs), n) + (if Last(rs).api < n then 1 else 0)
    ensures SumBytes(rs, n) == SumBytes(Front(rs), n) + (if Last(rs).api < n then Last(rs).size else 0)
  {
    if n > 0 { SumsStep(rs, n - 1); }
  }

  lemma {:induction false} SumsOfNothing(n: nat)
    ensures SumHits([], n) == 0 && SumBytes([], n) == 0
  {
    if n > 0 { SumsOfNothing(n - 1); }
  }

  /** Over all functions the hits add up to the number of records, and the bytes to the total over everything. */
  lemma {:induction false} Totals(rs: seq<Record>, n: nat)
    requires forall r :: r in rs ==> r.api < n
    ensures SumHits(rs, n) == |rs| && SumBytes(rs, n) == AllBytes(rs)
  {
    if rs == [] {
      SumsOfNothing(n);
    } else {
      SumsStep(rs, n);
      Totals(Front(rs), n);
    }
  }

  lemma SameLargest(rs: seq<Record>, qs: seq<Record>, f: nat, h: nat)
    requires multiset(rs) == multiset(qs)
    ensures Largest(rs, f, h) == Largest(qs, f, h)
  {
    LargestIs(rs, f, h);
    LargestIs(qs, f, h);
    var a, b := Largest(rs, f, h), Largest(qs, f, h);
    assert a > 0 ==> Record(f, a, h) in multiset(rs) && Record(f, a, h) in qs;
    assert b > 0 ==> Record(f, b, h) in multiset(qs) && Record(f, b, h) in rs;
  }

  lemma NotFewer(s: seq<Slot>, t: seq<Slot>, largest: nat -> nat, x: nat)
    requires IsTop(s, largest) && IsTop(t, largest) && x > 0
    ensures |AtLeast(t, x, SLOTS)| <= |AtLeast(s, x, SLOTS)|
  {
    hide AtLeast;
    var a, b := AtLeast(s, x, SLOTS), AtLeast(t, x, SLOTS);
    AtLeastSize(s, largest, x, SLOTS);
    AtLeastSize(t, largest, x, SLOTS);
    if b <= a {
      SubsetSize(b, a);
    } else {
      var h :| h in b && h !in a;
      AtLeastHolds(s, x, SLOTS, h);
      AtLeastHolds(t, x, SLOTS, h);
      assert largest(h) >= x && !Stored(s, h);
    }
  }

  /** The stored sizes do not depend on the order in which the records are visited: for every number of bytes, as many
      call stacks with at least that many are stored. */
  lemma OrderIrrelevant(s: seq<Slot>, t: seq<Slot>, rs: seq<Record>, qs: seq<Record>, f: nat, x: nat)
    requires multiset(rs) == multiset(qs) && x > 0
    requires IsTop(s, h => Largest(rs, f, h)) && IsTop(t, h => Largest(qs, f, h))
    ensures |AtLeast(s, x, SLOTS)| == |AtLeast(t, x, SLOTS)|
  {
    var l: nat -> nat, l': nat -> nat := h => Largest(rs, f, h), h => Largest(qs, f, h);
    forall h: nat ensures l(h) == l'(h) {
      SameLargest(rs, qs, f, h);
    }
    assert IsTop(t, l);
    NotFewer(s, t, l, x);
    NotFewer(t, s, l, x);
  }
}
