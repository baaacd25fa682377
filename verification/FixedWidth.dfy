/** The linker's 64-bit unsigned arithmetic. */
module FixedWidth {

  newtype uint64 = x: int | 0 <= x < 0x1_0000_0000_0000_0000

  const TWO64: nat := 0x1_0000_0000_0000_0000
  const MAX64: uint64 := 0xFFFF_FFFF_FFFF_FFFF

  /** Addition that wraps around. */
  function Add(a: uint64, b: uint64): (r: uint64)
    ensures a as nat + b as nat < TWO64 ==> r as nat == a as nat + b as nat
  {
    var sum := a as nat + b as nat;
    (if sum < TWO64 then sum else sum - TWO64) as uint64
  }

  /** Subtraction that wraps around. */
  function Sub(a: uint64, b: uint64): (r: uint64)
    ensures b <= a ==> r as nat == a as nat - b as nat
    ensures Add(b, r) == a
  {
    if b <= a then a - b else a + (MAX64 - b) + 1
  }

  /** Two moves of a position in step with a counter make one. */
  lemma ShiftTwice(x: uint64, d0: uint64, d1: uint64, d2: uint64)
    ensures Add(Add(x, Sub(d1, d0)), Sub(d2, d1)) == Add(x, Sub(d2, d0))
  {
  }

  lemma RemainderIs(x: int, m: int, p: int, r: int)
    requires m > 0 && x == p * m + r && 0 <= r < m
    ensures x % m == r && x / m == p
  {
    var k := p - x / m;
    assert k * m == x % m - r;
    assert k >= 1 ==> (k - 1) * m >= 0;
    assert k <= -1 ==> (k + 1) * m <= 0;
  }

  /** Adding a multiple of the modulus leaves the remainder as it is. */
  lemma AddMultiple(x: int, q: int, m: int)
    requires m > 0
    ensures (x + q * m) % m == x % m
  {
    RemainderIs(x + q * m, m, x / m + q, x % m);
  }

  /** The largest multiple of `a` that is not above `x`. */
  function RoundDown(x: nat, a: nat): (r: nat)
    requires a > 0
    ensures r <= x < r + a
  {
    if x < a then 0 else a + RoundDown(x - a, a)
  }

  /** Rounds up to a multiple of the alignment, wrapping around past the top. */
  function AlignTo(v: uint64, align: uint64): (r: uint64)
    requires align != 0
    ensures v as nat + align as nat <= TWO64 ==> v <= r && r as int - v as int < align as int
  {
    RoundDown(Add(v, align - 1) as nat, align as nat) as uint64
  }

  // The linker's and the compiler's `int`.

  const TWO32: nat := 0x1_0000_0000

  /** A number cut to 32 bits and read as a signed one. */
  function Wrap32(x: int): int {
    var low := x % TWO32;
    if low < TWO32 / 2 then low else low - TWO32
  }

  /** How often a loop runs whose bound is a number cut to a signed 32-bit one. */
  function LoopCount(n: nat): (r: nat)
    ensures r <= n && r < TWO32 / 2
    ensures r == n <==> n < TWO32 / 2
  {
    if Wrap32(n) < 0 then 0 else Wrap32(n)
  }

  lemma LoopCountIsLess(n: nat)
    requires LoopCount(n) != n
    ensures LoopCount(n) < n
  {
  }

  /** The wrapped number differs from the number by a multiple of 2^32. */
  lemma Wrap32Is(x: int) returns (q: int)
    ensures Wrap32(x) == x + q * TWO32
  {
    q := -(x / TWO32) - if x % TWO32 < TWO32 / 2 then 0 else 1;
  }

  lemma WrapSame(x: int, q: int)
    ensures Wrap32(x + q * TWO32) == Wrap32(x)
  {
    AddMultiple(x, q, TWO32);
  }

  function Times(n: nat, x: nat): nat {
    n * x
  }

  lemma TimesZero(n: nat, x: nat)
    ensures Times(n, x) == 0 <==> n == 0 || x == 0
  {
  }

  lemma WrapTimes(n: nat, x: nat)
    ensures Wrap32(n * Wrap32(x)) == Wrap32(Times(n, x))
  {
    var q := Wrap32Is(x);
    assert n * Wrap32(x) == n * x + (n * q) * TWO32;
    WrapSame(n * x, n * q);
  }

  lemma WrapPlus(x: int, y: int)
    ensures Wrap32(Wrap32(x) + Wrap32(y)) == Wrap32(x + y)
  {
    var p := Wrap32Is(x);
    var q := Wrap32Is(y);
    assert Wrap32(x) + Wrap32(y) == x + y + (p + q) * TWO32;
    WrapSame(x + y, p + q);
  }

  lemma SmallStays(x: nat)
    requires x < TWO32 / 2
    ensures Wrap32(x) == x
  {
  }
}
