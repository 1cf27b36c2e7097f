/** The 32-bit FNV-1a hash used to assign keys to reduce partitions. */
module Fnv {
  import opened Types

  /** The 32-bit FNV offset basis and prime. */
  const OffsetBasis: bv32 := 0x811c9dc5
  const Prime: bv32 := 0x01000193

  /** One round of FNV-1a: xor in the byte, then multiply modulo 2^32. */
  function Round(h: bv32, b: Byte): bv32
  {
    (h ^ (b as bv32)) * Prime
  }

  /** The hash state after writing the bytes of s, front to back, into a
      hash whose state was h. */
  function Absorb(h: bv32, s: Bytes): bv32
    decreases |s|
  {
    if s == [] then h else Absorb(Round(h, s[0]), s[1..])
  }

  /** Sum32 of a fresh FNV-1a hash into which s was written. */
  function Sum32a(s: Bytes): bv32
  {
    Absorb(OffsetBasis, s)
  }

  /** Writing a and then b leaves the state that writing a + b does. */
  lemma {:induction false} AbsorbConcat(h: bv32, a: Bytes, b: Bytes)
    ensures Absorb(h, a + b) == Absorb(Absorb(h, a), b)
    decreases |a|
  {
    if a == [] {
      assert a + b == b;
    } else {
      assert (a + b)[0] == a[0];
      assert (a + b)[1..] == a[1..] + b;
      AbsorbConcat(Round(h, a[0]), a[1..], b);
    }
  }

  /** Appending one byte runs one more round on the previous sum. */
  lemma AbsorbSnoc(s: Bytes, b: Byte)
    ensures Sum32a(s + [b]) == Round(Sum32a(s), b)
  {
    AbsorbConcat(OffsetBasis, s, [b]);
  }

  /** The published FNV-1a (32-bit) test vector: "a" hashes to 0xe40c292c. */
  lemma TestVectorA()
    ensures Sum32a([0x61]) == 0xe40c292c
  {
    var s: Bytes := [0x61];
    assert s[0] == 0x61 && s[1..] == [];
    assert (0x61 as Byte) as bv32 == 0x61;
    assert Round(OffsetBasis, 0x61) == 0xe40c292c;
  }
}
