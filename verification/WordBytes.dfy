/** The bytes of a 64-bit word, as the word loops of the CRC library take it apart. */
module WordBytes {

  function Xor8(m: bv8, n: bv8): bv8 { m ^ n }
  function Xor64(v: bv64, w: bv64): bv64 { v ^ w }

  /** Eight bytes of memory, read as one little-endian word. */
  function LittleEndian(b0: bv8, b1: bv8, b2: bv8, b3: bv8, b4: bv8, b5: bv8, b6: bv8, b7: bv8): bv64
  {
    (b0 as bv64) | ((b1 as bv64) << 8) | ((b2 as bv64) << 16) | ((b3 as bv64) << 24)
    | ((b4 as bv64) << 32) | ((b5 as bv64) << 40) | ((b6 as bv64) << 48) | ((b7 as bv64) << 56)
  }

  // The eight index expressions of `crc32_word`.
  function Byte0(w: bv64): bv8 { (w & 0xff) as bv8 }
  function Byte1(w: bv64): bv8 { ((w >> 8) & 0xff) as bv8 }
  function Byte2(w: bv64): bv8 { ((w >> 16) & 0xff) as bv8 }
  function Byte3(w: bv64): bv8 { ((w >> 24) & 0xff) as bv8 }
  function Byte4(w: bv64): bv8 { ((w >> 32) & 0xff) as bv8 }
  function Byte5(w: bv64): bv8 { ((w >> 40) & 0xff) as bv8 }
  function Byte6(w: bv64): bv8 { ((w >> 48) & 0xff) as bv8 }
  function Byte7(w: bv64): bv8 { (w >> 56) as bv8 }

  lemma BytesOfWord(b0: bv8, b1: bv8, b2: bv8, b3: bv8, b4: bv8, b5: bv8, b6: bv8, b7: bv8, w: bv64)
    requires w == LittleEndian(b0, b1, b2, b3, b4, b5, b6, b7)
    ensures Byte0(w) == b0 && Byte1(w) == b1 && Byte2(w) == b2 && Byte3(w) == b3
    ensures Byte4(w) == b4 && Byte5(w) == b5 && Byte6(w) == b6 && Byte7(w) == b7
  {
  }

  // Exclusive or goes byte by byte.
  lemma XorByte0(v: bv64, w: bv64) ensures Byte0(Xor64(v, w)) == Xor8(Byte0(v), Byte0(w)) {}
  lemma XorByte1(v: bv64, w: bv64) ensures Byte1(Xor64(v, w)) == Xor8(Byte1(v), Byte1(w)) {}
  lemma XorByte2(v: bv64, w: bv64) ensures Byte2(Xor64(v, w)) == Xor8(Byte2(v), Byte2(w)) {}
  lemma XorByte3(v: bv64, w: bv64) ensures Byte3(Xor64(v, w)) == Xor8(Byte3(v), Byte3(w)) {}
  lemma XorByte4(v: bv64, w: bv64) ensures Byte4(Xor64(v, w)) == Xor8(Byte4(v), Byte4(w)) {}
  lemma XorByte5(v: bv64, w: bv64) ensures Byte5(Xor64(v, w)) == Xor8(Byte5(v), Byte5(w)) {}
  lemma XorByte6(v: bv64, w: bv64) ensures Byte6(Xor64(v, w)) == Xor8(Byte6(v), Byte6(w)) {}
  lemma XorByte7(v: bv64, w: bv64) ensures Byte7(Xor64(v, w)) == Xor8(Byte7(v), Byte7(w)) {}
}
