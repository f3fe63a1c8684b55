/** The fixed-width integer operations the program relies on, over unbounded integers. */
module MachineInts {

  const TWO_32 := 0x1_0000_0000

  ghost predicate IsPow2(n: int) {
    n == 1 || (n > 1 && n % 2 == 0 && IsPow2(n / 2))
  }

  /** Bitwise conjunction. */
  function BitAnd(a: nat, b: nat): nat {
    if a == 0 || b == 0 then 0 else 2 * BitAnd(a / 2, b / 2) + (if a % 2 == 1 && b % 2 == 1 then 1 else 0)
  }

  lemma ModUnique(h: int, n: int, q: int, r: int)
    requires n > 0 && 0 <= r < n && h == n * q + r
    ensures h % n == r && h / n == q
  {
    var d := h / n - q;
    assert n * d == r - h % n;
    assert d >= 1 ==> n * d >= n;
    assert d <= -1 ==> n * d <= -n;
  }

  lemma Doubled(n: int, m: int, q: int)
    requires n == 2 * m
    ensures n * q == 2 * (m * q)
  {
  }

  lemma {:induction false} MaskQuotient(h: nat, n: int) returns (q: nat)
    requires IsPow2(n)
    ensures h == n * q + BitAnd(h, n - 1) && BitAnd(h, n - 1) < n
    decreases n
  {
    if n == 1 {
      q := h;
    } else if h == 0 {
      q := 0;
    } else {
      var m := n / 2;
      q := MaskQuotient(h / 2, m);
      Doubled(n, m, q);
      var p := m * q;
      assert (n - 1) / 2 == m - 1 && (n - 1) % 2 == 1;
      assert h == 2 * p + BitAnd(h, n - 1);
    }
  }

  /** Masking with a power of two minus one takes the remainder. */
  lemma MaskIsRemainder(h: nat, n: int)
    requires IsPow2(n)
    ensures BitAnd(h, n - 1) == h % n
  {
    var q := MaskQuotient(h, n);
    ModUnique(h, n, q, BitAnd(h, n - 1));
  }

  const TWO_64 := 0x1_0000_0000_0000_0000

  ghost predicate Multiple(y: int, k: int) {
    k > 0 && y % k == 0
  }

  lemma MultipleTwice(y: int, m: int)
    requires Multiple(y, m)
    ensures Multiple(2 * y, 2 * m)
  {
    var q := y / m;
    Doubled(2 * m, m, q);
    ModUnique(2 * y, 2 * m, q, 0);
  }

  lemma {:induction false} ClearLow(x: nat, k: int, w: int)
    requires IsPow2(k) && IsPow2(w) && k <= w && x < w
    ensures BitAnd(x, w - k) <= x < BitAnd(x, w - k) + k && Multiple(BitAnd(x, w - k), k)
    decreases k
  {
    hide BitAnd, Multiple;
    if k == 1 {
      FullMask(x, w);
    } else if x == 0 {
      NoBits(w - k, k);
    } else {
      ClearLow(x / 2, k / 2, w / 2);
      EvenMask(x, k, w);
      MultipleTwice(BitAnd(x / 2, w / 2 - k / 2), k / 2);
    }
  }

  lemma FullMask(x: nat, w: int)
    requires IsPow2(w) && x < w
    ensures BitAnd(x, w - 1) == x && Multiple(x, 1)
  {
    hide BitAnd, IsPow2;
    MaskIsRemainder(x, w);
    ModUnique(x, w, 0, x);
    ModUnique(x, 1, x, 0);
  }

  lemma NoBits(b: nat, k: int)
    requires k > 0
    ensures BitAnd(0, b) == 0 && Multiple(0, k)
  {
  }

  lemma EvenMask(x: nat, k: int, w: int)
    requires x > 0 && k % 2 == 0 && w % 2 == 0 && k <= w
    ensures BitAnd(x, w - k) == 2 * BitAnd(x / 2, w / 2 - k / 2)
  {
    assert (w - k) / 2 == w / 2 - k / 2 && (w - k) % 2 == 0;
  }

  /** Clearing the low bits of a 64-bit number with a mask rounds it down to a multiple of the power of two. */
  lemma ClearLowBits(x: nat, k: int)
    requires IsPow2(k) && k <= TWO_64 && x < TWO_64
    ensures BitAnd(x, TWO_64 - k) == x - x % k && BitAnd(x, TWO_64 - k) % k == 0
  {
    hide BitAnd, IsPow2;
    TwoTo64();
    ClearLow(x, k, TWO_64);
    var y := BitAnd(x, TWO_64 - k);
    ModUnique(x, k, y / k, x - y);
  }

  lemma TwoTo64()
    ensures IsPow2(TWO_64)
  {
    assert IsPow2(2) && IsPow2(4);
    PowTimes(4, 4);
    PowTimes(16, 16);
    PowTimes(256, 256);
    PowTimes(0x1_0000, 0x1_0000);
    PowTimes(TWO_32, TWO_32);
  }

  lemma {:induction false} PowTimes(a: int, b: int)
    requires IsPow2(a) && IsPow2(b)
    ensures IsPow2(a * b)
  {
    if a > 1 {
      PowTimes(a / 2, b);
      var c := a / 2;
      assert a * b == 2 * (c * b) by { Doubled(a, c, b); }
      assert c * b >= 1;
    }
  }

  /** A multiple of a multiple of `n` is a multiple of `n`. */
  lemma ModThrough(x: nat, n: int, k: int)
    requires n > 0 && k > 0 && n * k > 0 && x % (n * k) == 0
    ensures x % n == 0
  {
    var q := x / (n * k);
    assert x == n * k * q;
    assert n * k * q == n * (k * q);
    ModUnique(x, n, k * q, 0);
  }

  /** The value of the low 32 bits of `a` read as a signed number. */
  function Int32(a: int): int {
    var u := a % TWO_32;
    if u < 0x8000_0000 then u else u - TWO_32
  }

  function UInt32(a: int): nat {
    a % TWO_32
  }
}
