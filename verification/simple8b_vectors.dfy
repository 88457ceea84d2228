/**
 * The exact words of the Simple-8b unit tests, derived from the codec's
 * definitions and round trips.
 */
module Simple8bVectors {
  import opened BitArith
  import opened Simple8b

  /** Selector 14: one 60-bit value directly above the selector nibble. */
  lemma EncodeOneValue()
    ensures Encode(14, [1]) == 0x1E
  {
  }

  lemma DecodeOneValue()
    ensures Decode(0x1E) == [1]
  {
    EncodeOneValue();
    DecodeEncodeFull(14, [1]);
  }

  /** Selector 12: three 20-bit slots, filled from the least significant end. */
  lemma EncodeMultipleValues()
    ensures Encode(12, [1, 2, 3]) == 0x0000_3000_0200_001C
  {
    Pow2Of64();
    assert [1, 2, 3][1..] == [2, 3] && [2, 3][1..] == [3] && [3][1..] == [];
    assert Pack([3], 20) == 3;
    assert Pack([2, 3], 20) == 0x30_0002;
    assert Pack([1, 2, 3], 20) == 0x3_0000_2000_01;
  }

  lemma DecodeMultipleValues()
    ensures Decode(0x0000_3000_0200_001C) == [1, 2, 3]
  {
    EncodeMultipleValues();
    DecodeEncodeFull(12, [1, 2, 3]);
  }

  /** n one-bit slots all set pack to n one bits. */
  lemma {:induction false} PackOnes(n: nat)
    ensures Pack(seq(n, _ => 1), 1) == Pow2(n) - 1
  {
    if n > 0 {
      var ones := seq(n, _ => 1);
      assert ones[1..] == seq(n - 1, _ => 1);
      PackOnes(n - 1);
    }
  }

  /** Selector 1: sixty one-bit slots fill the whole payload. */
  lemma EncodeMaxValues()
    ensures Encode(1, seq(60, _ => 1)) == 0xFFFF_FFFF_FFFF_FFF1
  {
    PackOnes(60);
    Pow2Add(SelectorBits, 60);
    Pow2Of64();
  }

  lemma DecodeMaxValues()
    ensures Decode(0xFFFF_FFFF_FFFF_FFF1) == seq(60, _ => 1)
  {
    EncodeMaxValues();
    DecodeEncodeFull(1, seq(60, _ => 1));
  }

  /** Selector 8: seven 8-bit slots use 56 bits; the top 4 payload bits stay zero. */
  lemma EncodeWithTrailingDirtyBits()
    ensures Encode(8, [1, 1, 1, 1, 1, 1, 1]) == 0x0010_1010_1010_1018
  {
  }

  lemma DecodeWithTrailingDirtyBits()
    ensures Decode(0x0010_1010_1010_1018) == [1, 1, 1, 1, 1, 1, 1]
  {
    EncodeWithTrailingDirtyBits();
    DecodeEncodeFull(8, [1, 1, 1, 1, 1, 1, 1]);
  }

  /** Reserved selectors 0 and 15 encode to the zero word. */
  lemma InvalidEncodeSelectors()
    ensures Encode(0, []) == 0
    ensures Encode(15, []) == 0
  {
  }

  /** A zero selector nibble decodes to no values. */
  lemma InvalidDecodeZeroSelector()
    ensures Decode(0) == []
  {
  }
}
