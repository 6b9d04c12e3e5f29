/** Powers of two: the invariant of the hash table's capacity and the test
    `hashmap_new_with_capacity` applies before constructing a table. */
module PowerOfTwo {

  predicate IsPowerOfTwo(n: nat)
  {
    if n <= 1 then n == 1 else n % 2 == 0 && IsPowerOfTwo(n / 2)
  }

  /** Doubling keeps a power of two, so `resize` keeps the invariant. */
  lemma DoubleIsPowerOfTwo(n: nat)
    requires IsPowerOfTwo(n)
    ensures IsPowerOfTwo(2 * n)
    ensures 2 * n > n
  {
  }

  /** Halving a power of two above one gives a power of two. */
  lemma HalfIsPowerOfTwo(n: nat)
    requires IsPowerOfTwo(n) && n > 1
    ensures IsPowerOfTwo(n / 2) && n == 2 * (n / 2)
  {
  }

  /** The 32-bit word with only bit `k` set. */
  function Bit(k: bv32): (r: bv32)
    requires k < 32
    ensures r != 0
  {
    1 << k
  }

  /** The constructor's test on a C `int` capacity, given as its 32-bit
      two's-complement pattern: positive (non-zero with the sign bit clear)
      and no bit shared with its predecessor. */
  predicate PassesCapacityCheck(c: bv32)
  {
    c != 0 && c < 0x8000_0000 && c & (c - 1) == 0
  }

  /** The test accepts exactly the 31 positive `int` powers of two: every
      accepted word has a single bit set, below the sign bit. */
  lemma CapacityCheckSingleBit(c: bv32)
    requires PassesCapacityCheck(c)
    ensures exists k: bv32 :: k < 31 && c == Bit(k)
  {
    if c == 0x1 { assert c == Bit(0); }
    else if c == 0x2 { assert c == Bit(1); }
    else if c == 0x4 { assert c == Bit(2); }
    else if c == 0x8 { assert c == Bit(3); }
    else if c == 0x10 { assert c == Bit(4); }
    else if c == 0x20 { assert c == Bit(5); }
    else if c == 0x40 { assert c == Bit(6); }
    else if c == 0x80 { assert c == Bit(7); }
    else if c == 0x100 { assert c == Bit(8); }
    else if c == 0x200 { assert c == Bit(9); }
    else if c == 0x400 { assert c == Bit(10); }
    else if c == 0x800 { assert c == Bit(11); }
    else if c == 0x1000 { assert c == Bit(12); }
    else if c == 0x2000 { assert c == Bit(13); }
    else if c == 0x4000 { assert c == Bit(14); }
    else if c == 0x8000 { assert c == Bit(15); }
    else if c == 0x1_0000 { assert c == Bit(16); }
    else if c == 0x2_0000 { assert c == Bit(17); }
    else if c == 0x4_0000 { assert c == Bit(18); }
    else if c == 0x8_0000 { assert c == Bit(19); }
    else if c == 0x10_0000 { assert c == Bit(20); }
    else if c == 0x20_0000 { assert c == Bit(21); }
    else if c == 0x40_0000 { assert c == Bit(22); }
    else if c == 0x80_0000 { assert c == Bit(23); }
    else if c == 0x100_0000 { assert c == Bit(24); }
    else if c == 0x200_0000 { assert c == Bit(25); }
    else if c == 0x400_0000 { assert c == Bit(26); }
    else if c == 0x800_0000 { assert c == Bit(27); }
    else if c == 0x1000_0000 { assert c == Bit(28); }
    else if c == 0x2000_0000 { assert c == Bit(29); }
    else if c == 0x4000_0000 { assert c == Bit(30); }
    else { assert false; }
  }

  /** ... and every such word is accepted. */
  lemma CapacityCheckAcceptsBits(k: bv32)
    requires k < 31
    ensures PassesCapacityCheck(Bit(k))
  {
  }

  lemma {:induction false} PowersBelowTwoToThirtyOne()
    ensures
      IsPowerOfTwo(0x1) &&
      IsPowerOfTwo(0x2) &&
      IsPowerOfTwo(0x4) &&
      IsPowerOfTwo(0x8) &&
      IsPowerOfTwo(0x10) &&
      IsPowerOfTwo(0x20) &&
      IsPowerOfTwo(0x40) &&
      IsPowerOfTwo(0x80) &&
      IsPowerOfTwo(0x100) &&
      IsPowerOfTwo(0x200) &&
      IsPowerOfTwo(0x400) &&
      IsPowerOfTwo(0x800) &&
      IsPowerOfTwo(0x1000) &&
      IsPowerOfTwo(0x2000) &&
      IsPowerOfTwo(0x4000) &&
      IsPowerOfTwo(0x8000) &&
      IsPowerOfTwo(0x1_0000) &&
      IsPowerOfTwo(0x2_0000) &&
      IsPowerOfTwo(0x4_0000) &&
      IsPowerOfTwo(0x8_0000) &&
      IsPowerOfTwo(0x10_0000) &&
      IsPowerOfTwo(0x20_0000) &&
      IsPowerOfTwo(0x40_0000) &&
      IsPowerOfTwo(0x80_0000) &&
      IsPowerOfTwo(0x100_0000) &&
      IsPowerOfTwo(0x200_0000) &&
      IsPowerOfTwo(0x400_0000) &&
      IsPowerOfTwo(0x800_0000) &&
      IsPowerOfTwo(0x1000_0000) &&
      IsPowerOfTwo(0x2000_0000) &&
      IsPowerOfTwo(0x4000_0000)
  {
    DoubleIsPowerOfTwo(0x1);
    DoubleIsPowerOfTwo(0x2);
    DoubleIsPowerOfTwo(0x4);
    DoubleIsPowerOfTwo(0x8);
    DoubleIsPowerOfTwo(0x10);
    DoubleIsPowerOfTwo(0x20);
    DoubleIsPowerOfTwo(0x40);
    DoubleIsPowerOfTwo(0x80);
    DoubleIsPowerOfTwo(0x100);
    DoubleIsPowerOfTwo(0x200);
    DoubleIsPowerOfTwo(0x400);
    DoubleIsPowerOfTwo(0x800);
    DoubleIsPowerOfTwo(0x1000);
    DoubleIsPowerOfTwo(0x2000);
    DoubleIsPowerOfTwo(0x4000);
    DoubleIsPowerOfTwo(0x8000);
    DoubleIsPowerOfTwo(0x1_0000);
    DoubleIsPowerOfTwo(0x2_0000);
    DoubleIsPowerOfTwo(0x4_0000);
    DoubleIsPowerOfTwo(0x8_0000);
    DoubleIsPowerOfTwo(0x10_0000);
    DoubleIsPowerOfTwo(0x20_0000);
    DoubleIsPowerOfTwo(0x40_0000);
    DoubleIsPowerOfTwo(0x80_0000);
    DoubleIsPowerOfTwo(0x100_0000);
    DoubleIsPowerOfTwo(0x200_0000);
    DoubleIsPowerOfTwo(0x400_0000);
    DoubleIsPowerOfTwo(0x800_0000);
    DoubleIsPowerOfTwo(0x1000_0000);
    DoubleIsPowerOfTwo(0x2000_0000);
  }

  /** A capacity the test accepts is a power of two as a number, so the table
      it constructs satisfies the capacity invariant. */
  lemma CapacityCheckSound(c: bv32)
    requires PassesCapacityCheck(c)
    ensures IsPowerOfTwo(c as nat)
  {
    PowersBelowTwoToThirtyOne();
    if c == 0x1 { }
    else if c == 0x2 { }
    else if c == 0x4 { }
    else if c == 0x8 { }
    else if c == 0x10 { }
    else if c == 0x20 { }
    else if c == 0x40 { }
    else if c == 0x80 { }
    else if c == 0x100 { }
    else if c == 0x200 { }
    else if c == 0x400 { }
    else if c == 0x800 { }
    else if c == 0x1000 { }
    else if c == 0x2000 { }
    else if c == 0x4000 { }
    else if c == 0x8000 { }
    else if c == 0x1_0000 { }
    else if c == 0x2_0000 { }
    else if c == 0x4_0000 { }
    else if c == 0x8_0000 { }
    else if c == 0x10_0000 { }
    else if c == 0x20_0000 { }
    else if c == 0x40_0000 { }
    else if c == 0x80_0000 { }
    else if c == 0x100_0000 { }
    else if c == 0x200_0000 { }
    else if c == 0x400_0000 { }
    else if c == 0x800_0000 { }
    else if c == 0x1000_0000 { }
    else if c == 0x2000_0000 { }
    else if c == 0x4000_0000 { }
    else { assert false; }
  }

  /** The test rejects 0 and 10, accepts 8 and 16, and rejects every negative `int`. */
  lemma CapacityCheckExamples()
    ensures !PassesCapacityCheck(0) && !PassesCapacityCheck(10)
    ensures PassesCapacityCheck(8) && PassesCapacityCheck(16)
    ensures forall c: bv32 :: c >= 0x8000_0000 ==> !PassesCapacityCheck(c)
  {
  }

}
