// Bytes, machine words and little-endian fields, as x86_64 stores them.
module Bytes {

  type byte = b: int | 0 <= b < 256

  const U32: int := 0x1_0000_0000
  const U64: int := 0x1_0000_0000_0000_0000

  type uint32 = x: int | 0 <= x < U32

  /** The number held by the `n`-byte little-endian field at `at`. */
  function Le(p: seq<byte>, at: nat, n: nat): nat
    requires at + n <= |p|
    decreases |p| - at
  {
    if n == 0 then 0 else p[at] + 256 * Le(p, at + 1, n - 1)
  }

  /** Two bytes at once. */
  lemma LeStep(p: seq<byte>, at: nat, n: nat)
    requires at + n <= |p| && n >= 2
    ensures Le(p, at, n) == p[at] + 256 * (p[at + 1] + 256 * Le(p, at + 2, n - 2))
  {
  }

  /** The lowest byte comes first. */
  lemma LeWord(p: seq<byte>, at: nat)
    requires at + 4 <= |p|
    ensures Le(p, at, 2) == p[at] as int + 0x100 * p[at + 1] as int
    ensures Le(p, at, 4) == Le(p, at, 2) + 0x1_0000 * Le(p, at + 2, 2)
    ensures at + 8 <= |p| ==> Le(p, at, 8) == Le(p, at, 4) + 0x1_0000_0000 * Le(p, at + 4, 4)
  {
    LeStep(p, at, 2);
    LeStep(p, at, 4);
    if at + 8 <= |p| {
      LeStep(p, at, 8);
      LeStep(p, at + 2, 6);
      LeStep(p, at + 2, 2);
    }
  }

  function Pow(base: nat, k: nat): (p: nat)
    ensures base > 0 ==> p > 0
  {
    if k == 0 then 1 else base * Pow(base, k - 1)
  }

  lemma PowStep(base: nat, k: nat)
    ensures Pow(base, k) == if k == 0 then 1 else base * Pow(base, k - 1)
  {
  }

  lemma WordSizes()
    ensures Pow(256, 4) == U32 && Pow(256, 8) == U64
  {
    assert Pow(256, 2) == 65536;
    assert Pow(256, 4) == 256 * (256 * Pow(256, 2));
    assert Pow(256, 6) == 256 * (256 * Pow(256, 4));
    assert Pow(256, 8) == 256 * (256 * Pow(256, 6));
  }

  /** `p` and `q` agree inside [lo, hi). */
  ghost predicate SameInside(p: seq<byte>, q: seq<byte>, lo: int, hi: int) {
    |p| == |q| && forall x :: 0 <= x < |p| && lo <= x < hi ==> p[x] == q[x]
  }

  /** `p` and `q` differ at most inside [lo, hi). */
  ghost predicate SameOutside(p: seq<byte>, q: seq<byte>, lo: int, hi: int) {
    |p| == |q| && forall x :: 0 <= x < |p| && !(lo <= x < hi) ==> p[x] == q[x]
  }

  /** A field is its bytes: the same bytes give the same number. */
  lemma {:induction false} LeSame(p: seq<byte>, q: seq<byte>, at: nat, n: nat)
    requires at + n <= |p| && SameInside(p, q, at, at + n)
    ensures Le(p, at, n) == Le(q, at, n)
    decreases n
  {
    if n > 0 {
      assert p[at] == q[at];
      LeSame(p, q, at + 1, n - 1);
    }
  }

  lemma LeFrame(p: seq<byte>, q: seq<byte>, lo: int, hi: int, at: nat, n: nat)
    requires SameOutside(p, q, lo, hi) && at + n <= |p|
    requires at + n <= lo || hi <= at
    ensures Le(p, at, n) == Le(q, at, n)
  {
    LeSame(p, q, at, n);
  }

  lemma {:induction false} LeZero(p: seq<byte>, at: nat, n: nat)
    requires at + n <= |p| && forall x :: at <= x < at + n ==> p[x] == 0
    ensures Le(p, at, n) == 0
    decreases n
  {
    if n > 0 {
      LeZero(p, at + 1, n - 1);
    }
  }

  lemma LowByte(a: byte, x: nat, b: byte, y: nat)
    requires a + 256 * x == b + 256 * y
    ensures a == b && x == y
  {
  }

  /** A field determines its bytes: equal numbers come from equal bytes. */
  lemma {:induction false} LeInjective(p: seq<byte>, q: seq<byte>, at: nat, n: nat)
    requires |p| == |q| && at + n <= |p| && Le(p, at, n) == Le(q, at, n)
    ensures SameInside(p, q, at, at + n)
    decreases n
  {
    if n > 0 {
      LowByte(p[at], Le(p, at + 1, n - 1), q[at], Le(q, at + 1, n - 1));
      LeInjective(p, q, at + 1, n - 1);
    }
  }

  /** One machine load of an `n`-byte word. */
  function Load(mem: array<byte>, at: nat, n: nat): nat
    requires at + n <= mem.Length
    reads mem
  {
    Le(mem[..], at, n)
  }

  /** One machine store of an `n`-byte word, lowest byte first. */
  method Store(mem: array<byte>, at: nat, v: nat, n: nat)
    requires at + n <= mem.Length
    requires v < Pow(256, n)
    modifies mem
    ensures SameOutside(old(mem[..]), mem[..], at, at + n)
    ensures Le(mem[..], at, n) == v
    decreases n
  {
    if n > 0 {
      mem[at] := v % 256;
      Store(mem, at + 1, v / 256, n - 1);
    }
  }
}
