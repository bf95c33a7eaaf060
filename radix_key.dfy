/** Radix-tree addressing: which of the `RADIX_SIZE` slots a page index takes
    at each level of its file's tree (`get_radix_byte`). The tree consumes the
    page index four bits at a time, most significant nibble first, and needs
    `RADIX_LEVELS` = 64 / 4 = 16 levels to tell every pair of indices apart. */
module RadixKey {
  import opened Types

  function Pow16(n: nat): (r: nat)
    ensures r > 0
  {
    if n == 0 then 1 else 16 * Pow16(n - 1)
  }

  /** `get_radix_byte`: shift the page index right by `(15 - level) * RADIX_BITS`
      and keep only the low `RADIX_BITS` bits (`& 0xF`). */
  function Nibble(index: U64, level: nat): (slot: nat)
    requires level < RADIX_LEVELS
    ensures slot <= RADIX_MAX
  {
    (index / Pow16(RADIX_LEVELS - 1 - level)) % RADIX_SIZE
  }

  /** The `level` most significant nibbles of `index`, read as a number: the
      part of the index a descent to depth `level` has consumed. */
  function Prefix(index: U64, level: nat): int
    requires level <= RADIX_LEVELS
  {
    index / Pow16(RADIX_LEVELS - level)
  }

  /** `a` and `b` take the same slot at every level above `level`, so a
      descent for either reaches the same node at depth `level`. */
  ghost predicate Agree(a: U64, b: U64, level: nat)
    requires level <= RADIX_LEVELS
  {
    forall j | 0 <= j < level :: Nibble(a, j) == Nibble(b, j)
  }

  lemma DivUnique(k: int, d: int, q: int, r: int)
    requires d > 0 && 0 <= r < d && k == d * q + r
    ensures k / d == q && k % d == r
  {
    var q', r' := k / d, k % d;
    assert k == d * q' + r';
    var t := q' - q;
    assert d * q' == d * q + d * t;
    assert d * t == r - r';
  }

  lemma DivDiv16(k: nat, b: nat)
    requires b > 0
    ensures k / (16 * b) == (k / b) / 16
  {
    var q, r := k / (16 * b), k % (16 * b);
    var r1, r0 := r / b, r % b;
    assert r == b * r1 + r0;
    assert k == b * (16 * q + r1) + r0;
    DivUnique(k, b, 16 * q + r1, r0);
    DivUnique(k / b, 16, q, r1);
  }

  lemma Pow16Full()
    ensures Pow16(RADIX_LEVELS) == U64_LIMIT
  {
    assert Pow16(4) == 0x1_0000;
    assert Pow16(8) == 0x1_0000_0000;
    assert Pow16(12) == 0x1_0000_0000_0000;
  }

  /** Descending one more level appends one nibble to the consumed prefix. */
  lemma PrefixStep(index: U64, level: nat)
    requires level < RADIX_LEVELS
    ensures Prefix(index, level + 1) == 16 * Prefix(index, level) + Nibble(index, level)
  {
    var b := Pow16(RADIX_LEVELS - 1 - level);
    assert Pow16(RADIX_LEVELS - level) == 16 * b;
    DivDiv16(index, b);
  }

  lemma {:induction false} AgreePrefix(a: U64, b: U64, level: nat)
    requires level <= RADIX_LEVELS && Agree(a, b, level)
    ensures Prefix(a, level) == Prefix(b, level)
  {
    if level == 0 {
      Pow16Full();
    } else {
      assert Agree(a, b, level - 1);
      AgreePrefix(a, b, level - 1);
      PrefixStep(a, level - 1);
      PrefixStep(b, level - 1);
    }
  }

  /** Sixteen levels cover all 64 bits: two page indices that take the same
      slot at every level are the same index. */
  lemma NibblesDetermineKey(a: U64, b: U64)
    requires Agree(a, b, RADIX_LEVELS)
    ensures a == b
  {
    AgreePrefix(a, b, RADIX_LEVELS);
  }

  /** Conversely, two different indices part ways at some level. */
  lemma DistinctKeysDiverge(a: U64, b: U64)
    requires a != b
    ensures exists j :: 0 <= j < RADIX_LEVELS && Nibble(a, j) != Nibble(b, j)
  {
    if forall j | 0 <= j < RADIX_LEVELS :: Nibble(a, j) == Nibble(b, j) {
      NibblesDetermineKey(a, b);
    }
  }

  lemma {:induction false} Pow16Add(a: nat, b: nat)
    ensures Pow16(a + b) == Pow16(a) * Pow16(b)
  {
    if a > 0 {
      Pow16Add(a - 1, b);
      assert Pow16(a + b) == 16 * Pow16(a - 1 + b);
    }
  }

  // The drafts' other versions of get_radix_byte, kept as written so that
  // what goes wrong with each can be stated.

  /** `get_radix_byte` in vm_subsystem/vm_lru_hash_radix.c: shifts right by
      `level * RADIX_BITS` but never masks. */
  function RadixByteUnmasked(index: U64, level: nat): int
  {
    index / Pow16(level)
  }

  /** Index 16 at level 0 asks for slot 16 of a 16-slot node. */
  lemma UnmaskedByteOverrunsSlots()
    ensures RadixByteUnmasked(0x10, 0) == 16 > RADIX_MAX
  {
  }

  /** `get_radix_byte` in the earlier vm_lru_hash_radix.c: shifts LEFT by
      `level * RADIX_BITS` (truncated to 64 bits) and then masks with `0xF`. */
  function RadixByteShiftedLeft(index: U64, level: nat): nat
  {
    ((index * Pow16(level)) % U64_LIMIT) % RADIX_SIZE
  }

  /** Below the root the left shift has pushed the low nibble out of the mask,
      so every index takes slot 0 at every level but the first. */
  lemma ShiftedLeftIsZeroBelowRoot(index: U64, level: nat)
    requires 1 <= level
    ensures RadixByteShiftedLeft(index, level) == 0
  {
    var c := index * Pow16(level - 1);
    assert index * Pow16(level) == 16 * c;
    var q := (16 * c) / U64_LIMIT;
    var m := (16 * c) % U64_LIMIT;
    assert 16 * c == U64_LIMIT * q + m;
    assert m == 16 * (c - 0x1000_0000_0000_0000 * q);
    DivUnique(m, 16, c - 0x1000_0000_0000_0000 * q, 0);
  }

  /** Hence indices 0x01 and 0x11 follow one path at every level and the tree
      can never place them apart. */
  lemma ShiftedLeftConfusesKeys(level: nat)
    ensures RadixByteShiftedLeft(0x01, level) == RadixByteShiftedLeft(0x11, level)
  {
    if level >= 1 {
      ShiftedLeftIsZeroBelowRoot(0x01, level);
      ShiftedLeftIsZeroBelowRoot(0x11, level);
    }
  }

  /** `get_radix_byte` in the top-level header: most significant nibble first,
      masked, but starting from shift 48, so it only covers levels 0 to 12. */
  function RadixByteThirteenLevels(index: U64, level: nat): nat
    requires level <= 12
  {
    (index / Pow16(12 - level)) % RADIX_SIZE
  }

  /** The top three nibbles are never consulted: page indices 0 and 2^60
      take slot 0 at every one of the 13 levels. */
  lemma ThirteenLevelsMissTopNibbles(level: nat)
    requires level <= 12
    ensures RadixByteThirteenLevels(0, level) == RadixByteThirteenLevels(0x1000_0000_0000_0000, level) == 0
  {
    var d := Pow16(12 - level);
    Pow16Add(12 - level, 3 + level);
    Pow16Add(12, 3);
    assert Pow16(15) == 0x1000_0000_0000_0000 by {
      assert Pow16(12) == 0x1_0000_0000_0000;
    }
    DivUnique(0x1000_0000_0000_0000, d, Pow16(3 + level), 0);
    assert Pow16(3 + level) == 16 * Pow16(2 + level);
    DivUnique(Pow16(3 + level), 16, Pow16(2 + level), 0);
  }
}
