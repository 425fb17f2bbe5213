/** Rounding an address up to a power of two, as the mask arithmetic of the aligned allocator does. */
module Alignment {
  import opened Machine
  import opened FreeBlocks

  /** (x + alignadd) & alignmask in 32 bits, for the alignment boundary a. */
  function AlignUp32(x: nat, a: nat): nat
    requires a > 0
  {
    var y := (x + a - 1) % WORD;
    y - y % a
  }

  /** The first multiple of a at or after x, without wrapping. */
  function Up(x: nat, a: nat): nat
    requires a > 0
  {
    (x + a - 1) - (x + a - 1) % a
  }

  /** Where a block aligned to a may start inside a free entry at address e: at e itself, or far
      enough after it that the header of the entry still fits in front. */
  ghost predicate Permitted(e: nat, a: nat, q: nat)
    requires a > 0
  {
    q % a == 0 && (q == e || q >= e + HEADER)
  }

  function Place(e: nat, a: nat): nat
    requires a > 0
  {
    if 0 < Up(e, a) - e < HEADER then Up(e + HEADER, a) else Up(e, a)
  }

  lemma Multiple(m: nat, a: nat)
    requires a > 0
    ensures m * a % a == 0
  {
    if m > 0 {
      Multiple(m - 1, a);
      ModStep((m - 1) * a, a);
    }
  }

  lemma ModStep(x: nat, a: nat)
    requires a > 0
    ensures (x + a) % a == x % a
  {
    DivMod(x + a, a, x / a + 1, x % a);
  }

  /** Quotient and remainder are unique. */
  lemma DivMod(x: nat, a: nat, q: nat, r: nat)
    requires a > 0 && x == q * a + r && r < a
    ensures x / a == q && x % a == r
  {
    assert x == x / a * a + x % a;
    MulStep(q, x / a, a);
    MulStep(x / a, q, a);
  }

  lemma WordFactors(k: nat)
    requires k < 32
    ensures WORD == Pow2(32 - k) * Pow2(k) && Pow2(31) == 0x8000_0000 && Pow2(k) <= Pow2(31)
  {
    Pow2Split(32 - k, k);
    Pow2Split(31 - k, k);
    assert Pow2(31) == Pow2(31 - k) * Pow2(k);
    MulStep(1, Pow2(31 - k), Pow2(k));
    Pow2Value();
  }

  lemma WordIsMultiple(k: nat)
    requires k < 32
    ensures Pow2(k) <= 0x8000_0000 && WORD % Pow2(k) == 0
  {
    WordFactors(k);
    Multiple(Pow2(32 - k), Pow2(k));
  }

  lemma UpBounds(x: nat, a: nat)
    requires a > 0
    ensures Up(x, a) % a == 0 && x <= Up(x, a) < x + a
  {
    var y := x + a - 1;
    assert Up(x, a) == y / a * a;
    Multiple(y / a, a);
  }

  /** Rounding up gives the least multiple at or after x. */
  lemma UpLeast(x: nat, a: nat, q: nat)
    requires a > 0 && q % a == 0 && x <= q
    ensures Up(x, a) <= q
  {
    UpBounds(x, a);
    var i, j := q / a, Up(x, a) / a;
    assert q == i * a && Up(x, a) == j * a;
    MulStep(i, j, a);
  }

  /** The placement is the lowest permitted one. */
  lemma PlaceLeast(e: nat, a: nat, q: nat)
    requires a > 0
    ensures Permitted(e, a, Place(e, a)) && e <= Place(e, a)
    ensures Permitted(e, a, q) ==> Place(e, a) <= q
  {
    UpBounds(e, a);
    UpBounds(e + HEADER, a);
    if Permitted(e, a, q) {
      UpLeast(e, a, q);
      if q >= e + HEADER { UpLeast(e + HEADER, a, q); }
    }
  }

  lemma SmallMod(y: nat)
    requires y < WORD
    ensures y % WORD == y
  {
  }

  lemma OnceMod(y: nat)
    requires WORD <= y < 2 * WORD
    ensures y % WORD == y - WORD
  {
  }

  /** The mask arithmetic is rounding up modulo 2^32. */
  lemma AlignUp32Value(x: nat, a: nat)
    requires 0 < a <= 0x8000_0000 && WORD % a == 0 && x <= WORD
    ensures Up(x, a) <= WORD
    ensures AlignUp32(x, a) == if Up(x, a) == WORD then 0 else Up(x, a)
  {
    UpBounds(x, a);
    UpLeast(x, a, WORD);
    var y := x + a - 1;
    if y >= WORD {
      OnceMod(y);
      DivMod(y - WORD, a, 0, y - WORD);
      UpAtWord(x, a);
    } else {
      SmallMod(y);
    }
  }

  lemma UpAtWord(x: nat, a: nat)
    requires a > 0 && WORD % a == 0 && x <= WORD <= x + a - 1
    ensures Up(x, a) == WORD
  {
    UpLeast(x, a, WORD);
    var y := x + a - 1;
    assert WORD == WORD / a * a && y == y / a * a + y % a;
    NotAbove(WORD / a, y / a, y % a, a);
  }

  /** A multiple of a that is not above another one and a remainder is not above that one. */
  lemma NotAbove(i: int, q: int, r: nat, a: nat)
    requires r < a && i * a <= q * a + r
    ensures i * a <= q * a
  {
    MulStep(q, i, a);
    if i <= q { MulStep(i, q, a); }
  }

  /** The 32-bit distance from entry e to the rounded address is the true distance. */
  lemma AlignedOffset(e: nat, x: nat, a: nat)
    requires 0 < a <= 0x8000_0000 && WORD % a == 0 && 0 < e <= x <= WORD
    ensures Up(x, a) <= WORD && (AlignUp32(x, a) - e) % WORD == Up(x, a) - e
    ensures Up(x, a) < WORD ==> AlignUp32(x, a) == Up(x, a)
  {
    AlignUp32Value(x, a);
    UpBounds(x, a);
    Distance(e, Up(x, a));
  }

  /** The place is never beyond the end of memory. */
  lemma PlaceFits(e: nat, a: nat)
    requires 0 < a <= 0x8000_0000 && WORD % a == 0 && e + HEADER <= WORD
    ensures e <= Place(e, a) <= WORD
  {
    PlaceLeast(e, a, 0);
    AlignUp32Value(e, a);
    AlignUp32Value(e + HEADER, a);
  }

  lemma Distance(e: nat, u: nat)
    requires 0 < e <= u <= WORD
    ensures ((if u == WORD then 0 else u) - e) % WORD == u - e
  {
    SmallMod(u - e);
    if u == WORD {
      var d: int := 0 - e;
      assert d + WORD == u - e && (d + WORD) % WORD == d % WORD;
    }
  }
}
