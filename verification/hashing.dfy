/** The default string hash of hashmap.h, `Hashmap_hash_cstr`. A C `int`
    result is modelled as its 32-bit two's-complement pattern. Signed
    overflow of `hash * 31 + c` is undefined in C; the model takes the
    two's-complement wrap-around that compilers produce in practice. */
module StringHash {

  /** A `char` read into an `int`: `char` is taken to be signed, so bytes from
      0x80 up are sign-extended. */
  function Promote(c: bv8): (r: bv32)
    ensures c < 0x80 ==> r == c as bv32
    ensures c >= 0x80 ==> r >= 0xFFFF_FF80 && r & 0xFF == c as bv32
  {
    if c < 0x80 then c as bv32 else (c as bv32) | 0xFFFF_FF00
  }

  /** One iteration of the string hash loop. */
  function Step(h: bv32, c: bv8): bv32
  {
    h * 31 + Promote(c)
  }

  /** The hash accumulated over the characters of `s`, in order, from 0. */
  function Fold(s: seq<bv8>): bv32
  {
    if s == [] then 0 else Step(Fold(s[..|s| - 1]), s[|s| - 1])
  }

  /** `strlen`: the position of the first NUL byte of the buffer `s`. */
  function CStrLength(s: seq<bv8>): (n: nat)
    requires 0 in s
    ensures n < |s| && s[n] == 0
    ensures forall i :: 0 <= i < n ==> s[i] != 0
  {
    if s[0] == 0 then 0 else CStrLength(s[1..]) + 1
  }

  /** `Hashmap_hash_cstr` on the NUL-terminated string at the start of `s`. */
  function HashCStr(s: seq<bv8>): bv32
    requires 0 in s
  {
    Fold(s[..CStrLength(s)])
  }

  /** The source's `while (*str != '\0')` loop computes `HashCStr`. */
  method HashCStrLoop(s: seq<bv8>) returns (h: bv32)
    requires 0 in s
    ensures h == HashCStr(s)
  {
    h := 0;
    var i := 0;
    while s[i] != 0
      invariant 0 <= i <= CStrLength(s)
      invariant h == Fold(s[..i])
      decreases CStrLength(s) - i
    {
      assert s[..i + 1][..i] == s[..i];
      h := Step(h, s[i]);
      i := i + 1;
    }
  }

  /** The hash reads nothing past the terminator. */
  lemma HashStopsAtNul(s: seq<bv8>, t: seq<bv8>)
    requires 0 in s
    ensures 0 in s + t
    ensures HashCStr(s + t) == HashCStr(s)
  {
    var n := CStrLength(s);
    assert (s + t)[n] == 0;
    assert CStrLength(s + t) == n;
    assert (s + t)[..n] == s[..n];
  }

  /** Appending a character to the string extends the hash by one step. */
  lemma HashExtends(s: seq<bv8>, c: bv8)
    requires 0 !in s && c != 0
    ensures HashCStr(s + [c, 0]) == Step(HashCStr(s + [0]), c)
  {
    var u, w := s + [0], s + [c, 0];
    assert u[|s|] == 0 && w[|s| + 1] == 0;
    assert CStrLength(u) == |s|;
    assert CStrLength(w) == |s| + 1;
    assert w[..|s| + 1][..|s|] == u[..|s|];
  }

  /** "ab" hashes to 97 * 31 + 98; the empty string to 0; a lone byte 0xFF,
      sign-extended, to -1. */
  lemma HashCStrExamples()
    ensures HashCStr([97, 98, 0]) == 3105
    ensures HashCStr([0]) == 0
    ensures HashCStr([0xFF, 0]) == 0xFFFF_FFFF
  {
    assert CStrLength([97, 98, 0]) == 2 by {
      assert [97, 98, 0][1..] == [98, 0];
      assert [98, 0][1..] == [0];
    }
    assert [97, 98, 0][..2] == [97, 98];
    assert [97, 98][..1] == [97];
    assert [97][..0] == [];
    assert Fold([97]) == 97;
    assert Fold([97, 98]) == 97 * 31 + 98;
    assert CStrLength([0xFF, 0]) == 1 by {
      assert [0xFF, 0][1..] == [0];
    }
    assert [0xFF, 0][..1] == [0xFF];
  }

}

/** The default hashes of hashmap.h for 64-bit integer keys,
    `Hashmap_hash_int64` and `Hashmap_hash_uint64`. */
module IntegerHash {

  function Low(b: bv64): bv32
  {
    (b & 0xFFFF_FFFF) as bv32
  }

  function High(b: bv64): bv32
  {
    (b >> 32) as bv32
  }

  /** `Hashmap_hash_uint64`: the two `int` halves of the word, XORed. Which
      half is `parts[0]` depends on byte order; XOR does not care. */
  function HashUint64(b: bv64): bv32
  {
    Low(b) ^ High(b)
  }

  /** The bit pattern of a `long long`. */
  function Int64Bits(x: int): (b: bv64)
    requires -0x8000_0000_0000_0000 <= x < 0x8000_0000_0000_0000
  {
    (if x < 0 then x + 0x1_0000_0000_0000_0000 else x) as bv64
  }

  /** `Hashmap_hash_int64`: the same XOR over the signed value's bits. */
  function HashInt64(x: int): bv32
    requires -0x8000_0000_0000_0000 <= x < 0x8000_0000_0000_0000
  {
    HashUint64(Int64Bits(x))
  }

  /** The word whose high half is `hi` and whose low half is `lo`. */
  function Join(hi: bv32, lo: bv32): (b: bv64)
    ensures Low(b) == lo && High(b) == hi
  {
    ((hi as bv64) << 32) | (lo as bv64)
  }

  /** The hash of a word is the XOR of its halves, whichever order they are
      stored in. */
  lemma HashUint64Join(hi: bv32, lo: bv32)
    ensures HashUint64(Join(hi, lo)) == hi ^ lo
    ensures HashUint64(Join(hi, lo)) == HashUint64(Join(lo, hi))
  {
    XorCommutes(hi, lo);
  }

  lemma XorCommutes(x: bv32, y: bv32)
    ensures x ^ y == y ^ x
  {
  }

  /** The hash is zero exactly when the two halves agree. */
  lemma HashUint64Zero(b: bv64)
    ensures HashUint64(b) == 0 <==> Low(b) == High(b)
  {
    XorZero(Low(b), High(b));
  }

  lemma XorZero(x: bv32, y: bv32)
    ensures x ^ y == 0 <==> x == y
  {
  }

  /** A value that fits in 32 bits hashes to itself. */
  lemma HashUint64Small(x: bv32)
    ensures HashUint64(x as bv64) == x
  {
  }

  /** -1 has equal halves and hashes to 0; 2^32 + 1 does too. */
  lemma HashInt64Examples()
    ensures HashInt64(-1) == 0
    ensures HashInt64(0x1_0000_0001) == 0
    ensures HashInt64(5) == 5
  {
  }

}
