/** The 32-bit CRC of section 8 of RFC 1952, in the three forms of the library: a bit at a time,
    a byte at a time and eight bytes at a time.  The tables have the final complement folded in. */
module Crc32 {
  import opened CrcTheory
  import opened WordBytes

  /** One shift of the register. */
  function Step(c: bv32): bv32
  {
    if c & 1 == 1 then (c >> 1) ^ 0xedb8_8320 else c >> 1
  }

  function Xor(a: bv32, b: bv32): bv32 { a ^ b }
  function Shift8(c: bv32): bv32 { c >> 8 }
  function Low(c: bv32): bv8 { (c & 0xff) as bv8 }
  function Wide(b: bv8): bv32 { b as bv32 }
  function Half(c: bv32): bv32 { c >> 1 }
  function Odd(c: bv32): bool { c & 1 == 1 }
  function Inject(x: bool): bv32 { if x then 1 else 0 }
  function High(c: bv32): bool { c >> 31 == 1 }

  /** The register takes its lowest bit first. */
  const OPS: Ops<bv32, bv8> := Ops(Xor, 0, 0xffff_ffff, Step, Shift8, Low, Wide, Xor8, Half, Odd, Inject, High, 32)

  // ---------------------------------------------------------------- the laws hold

  lemma XorAssoc(a: bv32, b: bv32, c: bv32)
    ensures (a ^ b) ^ c == a ^ (b ^ c)
  {
  }

  lemma AssocHolds(a: bv32, b: bv32, c: bv32)
    ensures AssocAt(OPS, a, b, c)
  {
    XorApplies(a, b);
    XorApplies(b, c);
    XorApplies(a ^ b, c);
    XorApplies(a, b ^ c);
    XorAssoc(a, b, c);
  }

  lemma XorApplies(a: bv32, b: bv32)
    ensures OPS.xor(a, b) == a ^ b
  {
  }

  lemma CommHolds(a: bv32, b: bv32)
    ensures CommAt(OPS, a, b)
  {
  }

  lemma ZeroHolds(a: bv32)
    ensures ZeroAt(OPS, a)
  {
  }

  lemma GroupHolds()
    ensures Group(OPS)
  {
    forall a, b, c ensures AssocAt(OPS, a, b, c) { AssocHolds(a, b, c); }
    forall a, b ensures CommAt(OPS, a, b) { CommHolds(a, b); }
    forall a ensures ZeroAt(OPS, a) { ZeroHolds(a); }
  }

  lemma StepXor(a: bv32, b: bv32)
    ensures Step(a ^ b) == Step(a) ^ Step(b)
  {
    var p, q := a & 1, b & 1;
    assert (a ^ b) & 1 == p ^ q;
    assert (a ^ b) >> 1 == (a >> 1) ^ (b >> 1);
    if p == 1 {
      if q == 1 { } else { assert q == 0; }
    } else {
      assert p == 0;
    }
  }

  lemma StepHolds(a: bv32, b: bv32)
    ensures StepAt(OPS, a, b)
  {
    StepXor(a, b);
    XorApplies(a, b);
    XorApplies(Step(a), Step(b));
  }

  lemma StepLinearHolds()
    ensures StepLinear(OPS)
  {
    forall a, b ensures StepAt(OPS, a, b) { StepHolds(a, b); }
  }

  lemma ShiftHolds(a: bv32, b: bv32)
    ensures ShiftAt(OPS, a, b)
  {
  }

  lemma WideHolds(m: bv8, n: bv8)
    ensures WideAt(OPS, m, n)
  {
  }

  /** Eight shifts that meet no one bit only shift. */
  lemma EightZeros(c: bv32)
    requires c & 0xff == 0
    ensures Step(Step(Step(Step(Step(Step(Step(Step(c)))))))) == c >> 8
  {
  }

  lemma HighSteps(c: bv32)
    requires c & 0xff == 0
    ensures Steps(OPS, 8, c) == Shift8(c)
  {
    EightTimes(OPS, c);
    EightZeros(c);
  }

  lemma Halves(c: bv32)
    ensures Xor(c & 0xffff_ff00, Wide(Low(c))) == c
    ensures (c & 0xffff_ff00) & 0xff == 0 && Shift8(c & 0xffff_ff00) == Shift8(c)
  {
  }

  lemma SplitHolds(c: bv32)
    ensures SplitAt(OPS, c)
  {
    var high := c & 0xffff_ff00;
    Halves(c);
    HighSteps(high);
    SplitSum(c, high, Wide(Low(c)));
  }

  lemma SplitSum(c: bv32, high: bv32, low: bv32)
    requires OPS.xor(high, low) == c
    ensures Steps(OPS, 8, c) == OPS.xor(Steps(OPS, 8, high), Steps(OPS, 8, low))
  {
    StepLinearHolds();
    StepsXor(OPS, 8, high, low);
  }

  lemma LinearHolds()
    ensures Linear(OPS)
  {
    StepLinearHolds();
    forall a, b ensures ShiftAt(OPS, a, b) { ShiftHolds(a, b); }
    forall m, n ensures WideAt(OPS, m, n) { WideHolds(m, n); }
    forall a ensures SplitAt(OPS, a) { SplitHolds(a); }
  }

  lemma InjectiveHolds(a: bv32, b: bv32)
    ensures InjectiveAt(OPS, a, b)
  {
  }

  lemma HalveHolds(a: bv32)
    ensures HalveAt(OPS, a)
  {
  }

  lemma InjectHolds(a: bv32, x: bool)
    ensures InjectAt(OPS, a, x)
  {
  }

  lemma EightHalves(c: bv32)
    ensures (((((((c >> 1) >> 1) >> 1) >> 1) >> 1) >> 1) >> 1) >> 1 == c >> 8
  {
  }

  lemma SevenHalves(c: bv32)
    ensures ((((((c >> 1) >> 1) >> 1) >> 1) >> 1) >> 1) >> 1 == c >> 7
  {
  }

  lemma Halved8(c: bv32)
    ensures Halved(OPS, 8, c) == Shift8(c)
  {
    HalvedEight(OPS, c);
    EightHalves(c);
  }

  lemma Halved7(c: bv32)
    ensures Halved(OPS, 7, c) == c >> 7
  {
    HalvedSeven(OPS, c);
    SevenHalves(c);
  }

  lemma Peel(n: nat, c: bv32)
    ensures Halved(OPS, 8 + n, c) == Halved(OPS, n, Shift8(c))
  {
    HalvedAdd(OPS, 8, n, c);
    Halved8(c);
  }

  lemma EightHolds(m: bv8)
    ensures EightAt(OPS, m)
  {
    Halved8(Wide(m));
  }

  lemma TopBit(a: bv32)
    ensures Shift8(Shift8(Shift8(a))) >> 7 == a >> 31
  {
  }

  lemma HighHolds(a: bv32)
    ensures HighAt(OPS, a)
  {
    Peel(23, a);
    Peel(15, Shift8(a));
    Peel(7, Shift8(Shift8(a)));
    Halved7(Shift8(Shift8(Shift8(a))));
    TopBit(a);
  }

  lemma LawsHold()
    ensures Laws(OPS)
  {
    GroupHolds();
    LinearHolds();
    forall a, b ensures InjectiveAt(OPS, a, b) { InjectiveHolds(a, b); }
    forall a ensures HalveAt(OPS, a) { HalveHolds(a); }
    forall a ensures HighAt(OPS, a) { HighHolds(a); }
    forall a, x ensures InjectAt(OPS, a, x) { InjectHolds(a, x); }
    forall m ensures EightAt(OPS, m) { EightHolds(m); }
  }

  // ---------------------------------------------------------------- the three forms

  /** `table_byte[n]` and `table_word[k][n]`. */
  function Entry(k: nat, n: bv8): bv32
  {
    TableWord(OPS, k, n)
  }

  lemma NotIs(c: bv32)
    ensures Not(OPS, c) == !c
  {
  }

  /** `crc32_bit`. */
  method CrcBit(start: bv32, mem: array?<bv8>, len: nat) returns (crc: bv32)
    requires mem != null ==> len <= mem.Length
    ensures mem == null ==> crc == 0
    ensures mem != null ==> crc == Crc(OPS, start, mem[..len])
  {
    if mem == null {
      return 0;
    }
    NotIs(start);
    crc := !start;
    var i := 0;
    while i < len
      invariant 0 <= i <= len
      invariant crc == Register(OPS, Not(OPS, start), mem[..i])
    {
      RegisterOneMore(OPS, Not(OPS, start), mem[..i], mem[i]);
      assert mem[..i + 1] == mem[..i] + [mem[i]];
      crc := EightShifts(crc, mem[i]);
      i := i + 1;
    }
    NotIs(crc);
    crc := !crc;
  }

  /** The inner loop of `crc32_bit`. */
  method EightShifts(start: bv32, b: bv8) returns (crc: bv32)
    ensures crc == Byte(OPS, start, b)
  {
    XorApplies(start, b as bv32);
    crc := start ^ (b as bv32);
    var k := 0;
    while k < 8
      invariant 0 <= k <= 8
      invariant Steps(OPS, 8 - k, crc) == Byte(OPS, start, b)
    {
      crc := if crc & 1 == 1 then (crc >> 1) ^ 0xedb8_8320 else crc >> 1;
      k := k + 1;
    }
  }

  /** `(crc >> 8) ^ table_byte[(crc ^ byte) & 0xff]`. */
  method LookUp(start: bv32, b: bv8) returns (crc: bv32)
    ensures crc == ByteLookup(OPS, start, b)
  {
    var index := ((start ^ (b as bv32)) & 0xff) as bv8;
    LookUpIndex(start, b);
    XorApplies(start >> 8, Entry(0, index));
    crc := (start >> 8) ^ Entry(0, index);
  }

  lemma LookUpIndex(c: bv32, b: bv8)
    ensures ((c ^ (b as bv32)) & 0xff) as bv8 == OPS.bxor(OPS.low(c), b)
  {
  }

  lemma Empty(crc: bv32)
    ensures Crc(OPS, crc, []) == crc
  {
    GroupHolds();
    CrcAppend(OPS, crc, [], []);
  }

  lemma OneMore(crc: bv32, a: seq<bv8>, b: bv8)
    ensures Crc(OPS, crc, a + [b]) == ByteLookup(OPS, Crc(OPS, crc, a), b)
  {
    GroupHolds();
    LinearHolds();
    CrcOneMore(OPS, crc, a, b);
  }

  /** The CRC of a message may be computed in any pieces. */
  lemma Pieces(crc: bv32, a: seq<bv8>, b: seq<bv8>)
    ensures Crc(OPS, Crc(OPS, crc, a), b) == Crc(OPS, crc, a + b)
  {
    GroupHolds();
    CrcAppend(OPS, crc, a, b);
  }

  /** The bytes of `mem` before `i` are in `crc`. */
  ghost predicate Done(start: bv32, mem: array<bv8>, i: nat, crc: bv32)
    reads mem
  {
    i <= mem.Length && crc == Crc(OPS, start, mem[..i])
  }

  /** The body of the byte loops. */
  method OneByte(ghost start: bv32, mem: array<bv8>, i: nat, crc: bv32) returns (next: bv32)
    requires i < mem.Length && Done(start, mem, i, crc)
    ensures Done(start, mem, i + 1, next)
  {
    hide Crc, ByteLookup;
    OneMore(start, mem[..i], mem[i]);
    assert mem[..i + 1] == mem[..i] + [mem[i]];
    next := LookUp(crc, mem[i]);
  }

  /** `crc32_byte`. */
  method CrcByte(start: bv32, mem: array?<bv8>, len: nat) returns (crc: bv32)
    requires mem != null ==> len <= mem.Length
    ensures mem == null ==> crc == 0
    ensures mem != null ==> crc == Crc(OPS, start, mem[..len])
  {
    if mem == null {
      return 0;
    }
    Empty(start);
    crc := start;
    var i := 0;
    while i < len
      invariant 0 <= i <= len
      invariant Done(start, mem, i, crc)
    {
      crc := OneByte(start, mem, i, crc);
      i := i + 1;
    }
  }

  lemma RegisterBytes(c: bv32)
    ensures Byte0(c as bv64) == Low(c) && Byte1(c as bv64) == Low(Shift8(c))
    ensures Byte2(c as bv64) == Low(Shift8(Shift8(c))) && Byte3(c as bv64) == Low(Shift8(Shift8(Shift8(c))))
    ensures Byte4(c as bv64) == Byte5(c as bv64) == Byte6(c as bv64) == Byte7(c as bv64) == Low(0)
  {
  }

  lemma NothingLeft(c: bv32)
    ensures Shift8(Shift8(Shift8(Shift8(c)))) == 0 && Shift8(0) == 0
  {
  }

  /** The register runs out after four bytes. */
  lemma ShiftedBytes(c: bv32)
    ensures Shifted(OPS, 0, c) == c && Shifted(OPS, 1, c) == Shift8(c) && Shifted(OPS, 2, c) == Shift8(Shift8(c))
    ensures Shifted(OPS, 3, c) == Shift8(Shift8(Shift8(c)))
    ensures Shifted(OPS, 4, c) == 0 && Shifted(OPS, 5, c) == 0 && Shifted(OPS, 6, c) == 0
    ensures Shifted(OPS, 7, c) == 0 && Shifted(OPS, 8, c) == 0
  {
    NothingLeft(c);
    ShiftedLast(OPS, 0, c);
    ShiftedLast(OPS, 1, c);
    ShiftedLast(OPS, 2, c);
    ShiftedLast(OPS, 3, c);
    ShiftedLast(OPS, 4, c);
    ShiftedLast(OPS, 5, c);
    ShiftedLast(OPS, 6, c);
    ShiftedLast(OPS, 7, c);
  }

  lemma SliceBytes(c: bv32, b0: bv8, b1: bv8, b2: bv8, b3: bv8, b4: bv8, b5: bv8, b6: bv8, b7: bv8, w: bv64)
    requires w == Xor64(c as bv64, LittleEndian(b0, b1, b2, b3, b4, b5, b6, b7))
    ensures Byte0(w) == Xor8(Low(c), b0) && Byte1(w) == Xor8(Low(Shift8(c)), b1)
    ensures Byte2(w) == Xor8(Low(Shift8(Shift8(c))), b2) && Byte3(w) == Xor8(Low(Shift8(Shift8(Shift8(c)))), b3)
    ensures Byte4(w) == Xor8(Low(0), b4) && Byte5(w) == Xor8(Low(0), b5)
    ensures Byte6(w) == Xor8(Low(0), b6) && Byte7(w) == Xor8(Low(0), b7)
  {
    hide *;
    var v := LittleEndian(b0, b1, b2, b3, b4, b5, b6, b7);
    BytesOfWord(b0, b1, b2, b3, b4, b5, b6, b7, v);
    XorByte0(c as bv64, v); XorByte1(c as bv64, v); XorByte2(c as bv64, v); XorByte3(c as bv64, v);
    XorByte4(c as bv64, v); XorByte5(c as bv64, v); XorByte6(c as bv64, v); XorByte7(c as bv64, v);
    RegisterBytes(c);
  }

  lemma IndexIs(crc: bv32, b: seq<bv8>, i: nat, rest: bv32, index: bv8)
    requires i < |b| && Shifted(OPS, i, crc) == rest && index == Xor8(Low(rest), b[i])
    ensures index == SliceIndex(OPS, crc, b, i)
  {
  }

  /** `crc ^ *(uintmax_t const *)data`. */
  function SliceWord(crc: bv32, b: seq<bv8>): bv64
    requires |b| == 8
  {
    Xor64(crc as bv64, LittleEndian(b[0], b[1], b[2], b[3], b[4], b[5], b[6], b[7]))
  }

  /** The bytes of `crc ^ word` select the entries that the slicing form wants. */
  lemma WordIndex(crc: bv32, b: seq<bv8>, w: bv64)
    requires |b| == 8 && w == SliceWord(crc, b)
    ensures Byte0(w) == SliceIndex(OPS, crc, b, 0) && Byte1(w) == SliceIndex(OPS, crc, b, 1)
    ensures Byte2(w) == SliceIndex(OPS, crc, b, 2) && Byte3(w) == SliceIndex(OPS, crc, b, 3)
    ensures Byte4(w) == SliceIndex(OPS, crc, b, 4) && Byte5(w) == SliceIndex(OPS, crc, b, 5)
    ensures Byte6(w) == SliceIndex(OPS, crc, b, 6) && Byte7(w) == SliceIndex(OPS, crc, b, 7)
  {
    hide Xor64, Xor8, LittleEndian, Low, Shift8, Shifted, SliceIndex;
    hide Byte0, Byte1, Byte2, Byte3, Byte4, Byte5, Byte6, Byte7;
    SliceBytes(crc, b[0], b[1], b[2], b[3], b[4], b[5], b[6], b[7], w);
    ShiftedBytes(crc);
    IndexIs(crc, b, 0, crc, Byte0(w));
    IndexIs(crc, b, 1, Shift8(crc), Byte1(w));
    IndexIs(crc, b, 2, Shift8(Shift8(crc)), Byte2(w));
    IndexIs(crc, b, 3, Shift8(Shift8(Shift8(crc))), Byte3(w));
    IndexIs(crc, b, 4, 0, Byte4(w));
    IndexIs(crc, b, 5, 0, Byte5(w));
    IndexIs(crc, b, 6, 0, Byte6(w));
    IndexIs(crc, b, 7, 0, Byte7(w));
  }

  function XorEight(t0: bv32, t1: bv32, t2: bv32, t3: bv32, t4: bv32, t5: bv32, t6: bv32, t7: bv32): bv32
  {
    Xor(Xor(Xor(Xor(Xor(Xor(Xor(t0, t1), t2), t3), t4), t5), t6), t7)
  }

  lemma OpsXor(a: bv32, b: bv32)
    ensures OPS.xor(a, b) == Xor(a, b)
  {
  }

  lemma XorEightIs(t0: bv32, t1: bv32, t2: bv32, t3: bv32, t4: bv32, t5: bv32, t6: bv32, t7: bv32)
    ensures XorEight(t0, t1, t2, t3, t4, t5, t6, t7)
         == OPS.xor(OPS.xor(OPS.xor(OPS.xor(OPS.xor(OPS.xor(OPS.xor(t0, t1), t2), t3), t4), t5), t6), t7)
  {
    hide Xor;
    OpsXor(t0, t1);
    OpsXor(Xor(t0, t1), t2);
    OpsXor(Xor(Xor(t0, t1), t2), t3);
    OpsXor(Xor(Xor(Xor(t0, t1), t2), t3), t4);
    OpsXor(Xor(Xor(Xor(Xor(t0, t1), t2), t3), t4), t5);
    OpsXor(Xor(Xor(Xor(Xor(Xor(t0, t1), t2), t3), t4), t5), t6);
    OpsXor(Xor(Xor(Xor(Xor(Xor(Xor(t0, t1), t2), t3), t4), t5), t6), t7);
  }

  lemma LookupIs(crc: bv32, b: seq<bv8>, i: nat)
    requires i < |b|
    ensures Lookup(OPS, crc, b, i) == TableWord(OPS, |b| - 1 - i, SliceIndex(OPS, crc, b, i))
  {
  }

  lemma LookupsAreWord(crc: bv32, b: seq<bv8>, w: bv64)
    requires |b| == 8 && w == SliceWord(crc, b)
    ensures XorEight(TableWord(OPS, 7, Byte0(w)), TableWord(OPS, 6, Byte1(w)), TableWord(OPS, 5, Byte2(w)),
                     TableWord(OPS, 4, Byte3(w)), TableWord(OPS, 3, Byte4(w)), TableWord(OPS, 2, Byte5(w)),
                     TableWord(OPS, 1, Byte6(w)), TableWord(OPS, 0, Byte7(w))) == Crc(OPS, crc, b)
  {
    hide *;
    WordIndex(crc, b, w);
    GroupHolds();
    LinearHolds();
    ShiftedBytes(crc);
    ZeroIs();
    EightLookups(OPS, crc, b);
    forall i | 0 <= i < 8
      ensures Lookup(OPS, crc, b, i) == TableWord(OPS, 7 - i, SliceIndex(OPS, crc, b, i))
    {
      LookupIs(crc, b, i);
    }
    XorEightIs(TableWord(OPS, 7, Byte0(w)), TableWord(OPS, 6, Byte1(w)), TableWord(OPS, 5, Byte2(w)),
               TableWord(OPS, 4, Byte3(w)), TableWord(OPS, 3, Byte4(w)), TableWord(OPS, 2, Byte5(w)),
               TableWord(OPS, 1, Byte6(w)), TableWord(OPS, 0, Byte7(w)));
  }

  lemma ZeroIs()
    ensures OPS.zero == 0
  {
  }

  /** The body of the word loop of `crc32_word`. */
  method LookUpWord(start: bv32, b: seq<bv8>) returns (crc: bv32)
    requires |b| == 8
    ensures crc == Crc(OPS, start, b)
  {
    hide SliceWord, XorEight, TableWord, Crc, Byte0, Byte1, Byte2, Byte3, Byte4, Byte5, Byte6, Byte7;
    var word := SliceWord(start, b);
    LookupsAreWord(start, b, word);
    crc := XorEight(Entry(7, Byte0(word)), Entry(6, Byte1(word)), Entry(5, Byte2(word)), Entry(4, Byte3(word)),
                    Entry(3, Byte4(word)), Entry(2, Byte5(word)), Entry(1, Byte6(word)), Entry(0, Byte7(word)));
  }

  /** The body of the word loop. */
  method OneWord(ghost start: bv32, mem: array<bv8>, i: nat, crc: bv32) returns (next: bv32)
    requires i + 8 <= mem.Length && Done(start, mem, i, crc)
    ensures Done(start, mem, i + 8, next)
  {
    Pieces(start, mem[..i], mem[i..i + 8]);
    assert mem[..i + 8] == mem[..i] + mem[i..i + 8];
    next := LookUpWord(crc, mem[i..i + 8]);
  }

  /** `crc32_word`: bytes up to an eight-byte boundary of the address, whole words, and the bytes left over.
      `address` is where `mem` begins. */
  method CrcWord(start: bv32, mem: array?<bv8>, len: nat, address: nat) returns (crc: bv32)
    requires mem != null ==> len <= mem.Length
    ensures mem == null ==> crc == 0
    ensures mem != null ==> crc == Crc(OPS, start, mem[..len])
  {
    if mem == null {
      return 0;
    }
    Empty(start);
    crc := start;
    var i := 0;
    while i < len && (address + i) % 8 != 0
      invariant 0 <= i <= len
      invariant Done(start, mem, i, crc)
    {
      crc := OneByte(start, mem, i, crc);
      i := i + 1;
    }
    while len - i >= 8
      invariant 0 <= i <= len
      invariant Done(start, mem, i, crc)
    {
      crc := OneWord(start, mem, i, crc);
      i := i + 8;
    }
    while i < len
      invariant 0 <= i <= len
      invariant Done(start, mem, i, crc)
    {
      crc := OneByte(start, mem, i, crc);
      i := i + 1;
    }
  }

  // ---------------------------------------------------------------- the last bits

  /** `m` is `bits` ones. */
  predicate IsMask(m: bv32, bits: nat)
  {
    if bits == 0 then m == 0 else Odd(m) && IsMask(Half(m), bits - 1)
  }

  lemma MaskIs(bits: nat)
    requires bits <= 8
    ensures IsMask(((1 as bv32) << bits) - 1, bits)
  {
    assert IsMask(0, 0) && IsMask(1, 1) && IsMask(3, 2) && IsMask(7, 3) && IsMask(0xf, 4);
    assert IsMask(0x1f, 5) && IsMask(0x3f, 6) && IsMask(0x7f, 7) && IsMask(0xff, 8);
    if bits == 0 {} else if bits == 1 {} else if bits == 2 {} else if bits == 3 {} else if bits == 4 {}
    else if bits == 5 {} else if bits == 6 {} else if bits == 7 {} else {}
  }

  lemma AndHalf(v: bv32, m: bv32)
    ensures Half(v & m) == Half(v) & Half(m) && Odd(v & m) == (Odd(v) && Odd(m))
  {
  }

  function Rem(crc: bv32, val: bv32, bits: nat): bv32
    requires bits <= 8
  {
    Not(OPS, FoldBits(OPS, Not(OPS, crc), TakeBits(OPS, val, bits)))
  }

  /** Masking keeps the low bits and only them. */
  lemma {:induction false} LowBitsTaken(val: bv32, m: bv32, v: bv32, bits: nat)
    requires IsMask(m, bits) && v == val & m
    ensures Halved(OPS, bits, v) == 0
    ensures TakeBits(OPS, v, bits) == TakeBits(OPS, val, bits)
    decreases bits
  {
    hide Half, Odd;
    if bits == 0 {
      MaskZero(val);
    } else {
      AndHalf(val, m);
      LowBitsTaken(Half(val), Half(m), Half(v), bits - 1);
    }
  }

  lemma MaskZero(val: bv32)
    ensures val & 0 == 0
  {
  }

  /** `crc32_rem`. */
  method CrcRem(start: bv32, val: bv32, bits: nat) returns (crc: bv32)
    requires bits <= 8
    ensures crc == Rem(start, val, bits)
  {
    NotIs(start);
    crc := !start;
    MaskIs(bits);
    var m := ((1 as bv32) << bits) - 1;
    var v := val & m;
    LawsHold();
    LowBitsTaken(val, m, v, bits);
    StepsAreBits(OPS, crc, v, bits);
    XorApplies(crc, v);
    ghost var c := crc;
    crc := crc ^ v;
    var k := bits;
    while k > 0
      invariant 0 <= k <= bits
      invariant Steps(OPS, k, crc) == FoldBits(OPS, c, TakeBits(OPS, val, bits))
    {
      crc := if crc & 1 == 1 then (crc >> 1) ^ 0xedb8_8320 else crc >> 1;
      k := k - 1;
    }
    NotIs(crc);
    crc := !crc;
  }

  /** The bits of a byte may be fed in two parts, and eight of them are the byte. */
  lemma RemSplits(crc: bv32, val: bv32, m: nat, n: nat)
    requires m + n <= 8
    ensures Rem(Rem(crc, val, m), Halved(OPS, m, val), n) == Rem(crc, val, m + n)
  {
    GroupHolds();
    NotNot(OPS, FoldBits(OPS, Not(OPS, crc), TakeBits(OPS, val, m)));
    TakeAdd(OPS, val, m, n);
    FoldAppend(OPS, Not(OPS, crc), TakeBits(OPS, val, m), TakeBits(OPS, Halved(OPS, m, val), n));
  }

  lemma RemOfByte(crc: bv32, b: bv8)
    ensures Rem(crc, b as bv32, 8) == Crc(OPS, crc, [b])
  {
    LawsHold();
    RegisterIsBits(OPS, Not(OPS, crc), [b]);
    assert [b][1..] == [] && MessageBits(OPS, [b]) == TakeBits(OPS, Wide(b), 8);
  }

  // ---------------------------------------------------------------- what the library promises

  /** What a shift folds in: the polynomial of the standard, with the coefficient of x^e in bit 31 - e. */
  lemma PolynomialIs(c: bv32)
    ensures Step(c) == (c >> 1) ^ if c & 1 == 0 then 0 else
      (0x8000_0000 >> 0) | (0x8000_0000 >> 1) | (0x8000_0000 >> 2) | (0x8000_0000 >> 4) | (0x8000_0000 >> 5)
      | (0x8000_0000 >> 7) | (0x8000_0000 >> 8) | (0x8000_0000 >> 10) | (0x8000_0000 >> 11) | (0x8000_0000 >> 12)
      | (0x8000_0000 >> 16) | (0x8000_0000 >> 22) | (0x8000_0000 >> 23) | (0x8000_0000 >> 26)
  {
  }

  /** The inner loop of `make_crc_table` of section 8 of RFC 1952, `k` times. */
  function RfcShifts(c: bv32, k: nat): bv32
    decreases k
  {
    if k == 0 then c else RfcShifts(if c & 1 != 0 then 0xedb8_8320 ^ (c >> 1) else c >> 1, k - 1)
  }

  /** `make_crc_table` of section 8 of RFC 1952. */
  function RfcTable(n: bv8): bv32
  {
    RfcShifts(n as bv32, 8)
  }

  /** One round of the loop of `update_crc` of section 8 of RFC 1952. */
  function RfcByte(c: bv32, b: bv8): bv32
  {
    RfcTable(((c ^ (b as bv32)) & 0xff) as bv8) ^ (c >> 8)
  }

  /** The whole loop. */
  function RfcLoop(c: bv32, data: seq<bv8>): bv32
    decreases |data|
  {
    if data == [] then c else RfcLoop(RfcByte(c, data[0]), data[1..])
  }

  lemma {:induction false} RfcShiftsAre(c: bv32, k: nat)
    ensures RfcShifts(c, k) == Steps(OPS, k, c)
    decreases k
  {
    RfcShiftIs(c);
    if k > 0 { RfcShiftsAre(Step(c), k - 1); }
  }

  lemma RfcShiftIs(c: bv32)
    ensures (if c & 1 != 0 then 0xedb8_8320 ^ (c >> 1) else c >> 1) == Step(c)
  {
  }

  /** The CRC is the one that RFC 1952 defines by its plain table. */
  lemma IsRfcCrc(crc: bv32, data: seq<bv8>)
    ensures Crc(OPS, crc, data) == RfcLoop(crc ^ 0xffff_ffff, data) ^ 0xffff_ffff
  {
    XorApplies(crc, 0xffff_ffff);
    RfcLoopIsRegister(crc ^ 0xffff_ffff, data);
    XorApplies(RfcLoop(crc ^ 0xffff_ffff, data), 0xffff_ffff);
  }

  lemma {:induction false} RfcLoopIsRegister(c: bv32, data: seq<bv8>)
    ensures RfcLoop(c, data) == Register(OPS, c, data)
    decreases |data|
  {
    hide RfcByte, Xor, Xor8, Shift8, Low;
    if data != [] {
      GroupHolds();
      LinearHolds();
      ByteSplits(OPS, c, data[0]);
      RfcStep(c, data[0]);
      RfcLoopIsRegister(Byte(OPS, c, data[0]), data[1..]);
    }
  }

  lemma RfcStep(c: bv32, b: bv8)
    ensures OPS.xor(OPS.shift(c), Steps(OPS, 8, OPS.wide(OPS.bxor(OPS.low(c), b))))
            == RfcByte(c, b)
  {
    hide RfcTable;
    var n := ((c ^ (b as bv32)) & 0xff) as bv8;
    LookUpIndex(c, b);
    RfcTableIs(n);
    XorApplies(c >> 8, RfcTable(n));
    XorCommutes(c >> 8, RfcTable(n));
  }

  lemma RfcTableIs(n: bv8)
    ensures RfcTable(n) == Steps(OPS, 8, OPS.wide(n))
  {
    RfcShiftsAre(n as bv32, 8);
  }

  lemma XorCommutes(a: bv32, b: bv32)
    ensures a ^ b == b ^ a
  {
  }

  /** Two messages of the same length that differ, and differ only inside 32 consecutive bits, have different CRCs. */
  lemma BurstErrorsSeen(crc: bv32, a: seq<bv8>, b: seq<bv8>, i: nat)
    requires |a| == |b| && a != b
    requires AgreeOutside(MessageBits(OPS, a), MessageBits(OPS, b), i, 32)
    ensures Crc(OPS, crc, a) != Crc(OPS, crc, b)
  {
    LawsHold();
    BurstDetected(OPS, crc, a, b, i);
  }
}
