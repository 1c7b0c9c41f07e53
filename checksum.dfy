/**
 * The chunk checksum: the CRC-32 of ISO/IEC 15948 (PNG) section 5.5 and its
 * Annex D, with the reflected polynomial 0xEDB88320 and the register preset to
 * and finally xored with 0xFFFFFFFF, as java.util.zip.CRC32 computes it.
 */
module Checksum {
  import opened ByteOrder

  const POLYNOMIAL: bv32 := 0xEDB8_8320
  const INITIAL: bv32 := 0xFFFF_FFFF
  const BITS_PER_BYTE: nat := 8

  /** `rounds` bitwise steps of the reflected CRC register. */
  function ShiftRounds(register: bv32, rounds: nat): bv32
    decreases rounds
  {
    if rounds == 0 then register
    else ShiftRounds(if register & 1 == 1 then (register >> 1) ^ POLYNOMIAL else register >> 1, rounds - 1)
  }

  /** Folds one byte into the register. */
  function UpdateByte(register: bv32, b: byte): bv32
  {
    ShiftRounds(register ^ (b as bv32), BITS_PER_BYTE)
  }

  /** Folds the bytes of `s` into the register, first byte first. */
  function Feed(register: bv32, s: seq<byte>): bv32
    decreases |s|
  {
    if s == [] then register else UpdateByte(Feed(register, s[..|s| - 1]), s[|s| - 1])
  }

  /** The CRC-32 of `s`. */
  function Crc32(s: seq<byte>): bv32
  {
    Feed(INITIAL, s) ^ INITIAL
  }

  /** Feeding two pieces one after the other is the same as feeding their concatenation. */
  lemma {:induction false} FeedAppend(register: bv32, a: seq<byte>, b: seq<byte>)
    ensures Feed(register, a + b) == Feed(Feed(register, a), b)
    decreases |b|
  {
    if b == [] {
      assert a + b == a;
    } else {
      var front := b[..|b| - 1];
      assert (a + b)[..|a + b| - 1] == a + front;
      assert (a + b)[|a + b| - 1] == b[|b| - 1];
      FeedAppend(register, a, front);
    }
  }

  /**
   * java.util.zip.CRC32, observed through update and getValue: the bytes fed so
   * far, in order. FeedAppend shows that folding them in piece by piece, as the
   * JDK's running register does, yields the same value.
   */
  class Crc32Accumulator {
    var fed: seq<byte>

    constructor ()
      ensures fed == []
    {
      fed := [];
    }

    /** CRC32.update: feeds `bytes` after everything fed so far. */
    method Update(bytes: seq<byte>)
      modifies this
      ensures fed == old(fed) + bytes
    {
      fed := fed + bytes;
    }

    /** CRC32.getValue: the CRC-32 of everything fed so far. */
    function Value(): bv32
      reads this
    {
      Crc32(fed)
    }
  }
}
