/** The 32-bit machine: its numbers, and the kernel's error codes (ckerror.h). */
module Machine {
  const WORD: nat := 0x1_0000_0000  // addresses and sizes are 32 bits wide
  const HALF: nat := 0x8000_0000

  type Byte = b: int | 0 <= b < 256

  type Int32 = t: int | -0x8000_0000 <= t < 0x8000_0000

  /** An integer as a signed 32-bit number. */
  function Wrap(x: int): Int32 {
    (x + HALF) % WORD - HALF
  }

  function Pow2(k: nat): (p: nat)
    ensures p > 0
  {
    if k == 0 then 1 else 2 * Pow2(k - 1)
  }

  /** One more factor a for every step from i to j. */
  lemma MulStep(i: int, j: int, a: nat)
    ensures i < j ==> i * a + a <= j * a
  {
    if i < j {
      var m: nat := j - i - 1;
      Distribute(i, m, a);
      assert m * a >= 0;
    }
  }

  lemma Distribute(i: int, m: int, a: int)
    ensures (i + 1 + m) * a == i * a + a + m * a
  {
  }

  lemma Twice(a: int, b: int)
    ensures 2 * a * b == 2 * (a * b)
  {
  }

  lemma {:induction false} Pow2Split(i: nat, j: nat)
    ensures Pow2(i + j) == Pow2(i) * Pow2(j)
  {
    if i > 0 {
      Pow2Split(i - 1, j);
      Twice(Pow2(i - 1), Pow2(j));
    }
  }

  lemma Pow2Value()
    ensures Pow2(31) == 0x8000_0000 && Pow2(32) == WORD
  {
    assert Pow2(4) == 16;
    Pow2Split(4, 4);
    Pow2Split(8, 8);
    Pow2Split(16, 8);
    Pow2Split(24, 4);
    Pow2Split(28, 3);
  }

  function Max(a: int, b: int): int { if a < b then b else a }

  function Min(a: int, b: int): int { if a < b then a else b }

  /** n times x, or nothing at all if n is negative. */
  function Times<T>(x: T, n: int): (s: seq<T>)
    ensures |s| == Max(n, 0) && forall i :: 0 <= i < |s| ==> s[i] == x
  {
    seq(Max(n, 0), i => x)
  }
}

module CkErrors {
  const ENOVALIDADDRSPC: int := -1
  const ENOVALIDKERNEL: int := -2
  const EINSCHEDPARMS: int := -3
  const ENOMEM: int := -4
  const EUNDEFOBJ: int := -5
  const ELOCKED: int := -6
  const ENOLOCKPERMS: int := -7
  const ENOVALIDTHREAD: int := -12
  const ENOSIGHANDL: int := -13
  const ERESOURCEBUSY: int := -16
  const EINVALIDPARAMS: int := -18
}
