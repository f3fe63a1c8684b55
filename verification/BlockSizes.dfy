/** Sizes and skip-list levels of arena blocks, for 8-byte pointers. */
module BlockSizes {
  import opened MachineInts
  import opened SkipLists

  const LINK_SIZE := 8
  /** Size of a block header. */
  const HEADER := 32
  /** Where the links of a free block begin. */
  const NEXT_OFFSET := 40
  const ROUND_UP := 32
  const MIN_SIZE := 64

  /** Block sizes are rounded up to this power of two. */
  method RoundedUpBlockSize() returns (roundUp: nat)
    ensures roundUp == ROUND_UP && IsPow2(roundUp)
  {
    roundUp := 16;
    while roundUp < HEADER
      invariant roundUp == 16 || roundUp == 32
      decreases HEADER - roundUp
    {
      roundUp := roundUp + roundUp;
    }
    assert IsPow2(4) && IsPow2(16);
  }

  /** The next multiple of `align`, computed with a 64-bit mask. */
  function RoundUp(addr: nat, align: nat): nat
    requires align <= TWO_64
  {
    if align == 0 then 0 else BitAnd(addr + (align - 1), TWO_64 - align)
  }

  /** For a power of two, rounding up gives the least multiple that is not smaller. */
  lemma RoundsUp(addr: nat, align: int)
    requires IsPow2(align) && align <= TWO_64 && addr + align <= TWO_64
    ensures RoundUp(addr, align) % align == 0 && addr <= RoundUp(addr, align) < addr + align
  {
    hide BitAnd;
    ClearLowBits(addr + (align - 1), align);
  }

  /** How often `size` can be halved before it is at most `base`. */
  function Log2(size: nat, base: nat): nat
    requires base > 0
  {
    if size <= base then 0 else 1 + Log2(size / 2, base)
  }

  method IntLog2(size: nat, base: nat) returns (result: nat)
    requires base > 0
    ensures result == Log2(size, base)
  {
    result := 0;
    var i := size;
    while i > base
      invariant i >= 0 && result + Log2(i, base) == Log2(size, base)
    {
      i := i / 2;
      result := result + 1;
    }
  }

  function Halved(size: nat, times: nat): nat {
    if times == 0 then size else Halved(size / 2, times - 1)
  }

  /** The defining bounds: halving that often gets to the base, and halving once less does not. */
  lemma {:induction false} Log2Bounds(size: nat, base: nat)
    requires base > 0
    ensures Halved(size, Log2(size, base)) <= base && (Log2(size, base) > 0 ==> Halved(size, Log2(size, base) - 1) > base)
  {
    if size > base { Log2Bounds(size / 2, base); }
  }

  /** A larger block does not have a smaller logarithm. */
  lemma {:induction false} Log2Monotone(a: nat, b: nat, base: nat)
    requires base > 0 && a <= b
    ensures Log2(a, base) <= Log2(b, base)
  {
    if a > base { Log2Monotone(a / 2, b / 2, base); }
  }

  /** The number of levels of a free block of this size when the random part is `n`. */
  function LevelsFor(size: int, n: int): int
    requires size >= MIN_SIZE
  {
    var level, maxFit := Log2(size, MIN_SIZE) + n, (size - NEXT_OFFSET) / LINK_SIZE;
    var fitting := if level > maxFit then maxFit else level;
    if fitting > MAX_LEVEL - 1 then MAX_LEVEL - 1 else fitting
  }

  /** A larger block has at least as many levels, whatever the random parts. */
  lemma LevelsMonotone(a: int, b: int, n: int)
    requires MIN_SIZE <= a <= b && n >= 1
    ensures LevelsFor(a, 1) <= LevelsFor(b, n)
  {
    Log2Monotone(a, b, MIN_SIZE);
  }

  /** The levels a free block of this size may have: its links fit in, and a search for its size will find it. */
  predicate Suits(levels: int, size: int) {
    size >= MIN_SIZE && LevelsFor(size, 1) <= levels < MAX_LEVEL && NEXT_OFFSET + LINK_SIZE * levels <= size
  }

  /** A random integer that is at least 1. */
  method Random() returns (n: int)
    ensures n >= 1
  {
    n :| n >= 1;
  }

  method SkiplistLevels(size: int, random: bool) returns (level: int)
    requires size >= MIN_SIZE
    ensures 1 <= level && Suits(level, size) && (!random ==> level == LevelsFor(size, 1))
    ensures level <= 29 && 40 + 8 * level <= size
    ensures !random ==> var wanted, room := Log2(size, 64) + 1, (size - 40) / 8;
              level == if wanted <= room && wanted <= 29 then wanted else if room <= 29 then room else 29
    ensures level <= Log2(size, 64) ==> level == 29 || level == (size - 40) / 8
  {
    var log := IntLog2(size, MIN_SIZE);
    var n := 1;
    if random { n := Random(); }
    level := log + n;
    var maxFit := (size - NEXT_OFFSET) / LINK_SIZE;
    if level > maxFit { level := maxFit; }
    if level > MAX_LEVEL - 1 { level := MAX_LEVEL - 1; }
    assert level == LevelsFor(size, n);
    LevelsMonotone(size, size, n);
  }
}
