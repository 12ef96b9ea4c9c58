/** The 8-bit CRC of the library in its three forms.  Its register takes the high bit first and is not
    complemented; the bitwise form keeps it in the low byte of a wider word that it only masks at the end. */
module Crc8 {
  import opened CrcTheory
  import opened WordBytes

  /** One shift of the register. */
  function Step(c: bv8): bv8
  {
    if c & 0x80 == 0x80 then (c << 1) ^ 7 else c << 1
  }

  /** What a shift folds in: x^2 + x + 1, the rest of the polynomial x^8 + x^2 + x + 1. */
  lemma PolynomialIs(c: bv8)
    ensures Step(c) == (c << 1) ^ if c & 0x80 == 0 then 0 else (1 << 2) | (1 << 1) | (1 << 0)
  {
  }

  function Zero8(c: bv8): bv8 { 0 }
  function Same(c: bv8): bv8 { c }
  function Half(c: bv8): bv8 { c << 1 }
  function Odd(c: bv8): bool { c & 0x80 == 0x80 }
  function Inject(x: bool): bv8 { if x then 0x80 else 0 }
  function High(c: bv8): bool { c & 1 == 1 }

  /** The register takes its highest bit first; a byte step shifts all of it out. */
  const OPS: Ops<bv8, bv8> := Ops(Xor8, 0, 0, Step, Zero8, Same, Same, Xor8, Half, Odd, Inject, High, 8)

  // ---------------------------------------------------------------- the laws hold

  lemma OpsXor(a: bv8, b: bv8)
    ensures OPS.xor(a, b) == Xor8(a, b)
  {
  }

  lemma XorAssoc(a: bv8, b: bv8, c: bv8)
    ensures Xor8(Xor8(a, b), c) == Xor8(a, Xor8(b, c))
  {
  }

  lemma AssocHolds(a: bv8, b: bv8, c: bv8)
    ensures AssocAt(OPS, a, b, c)
  {
    hide Xor8;
    OpsXor(a, b);
    OpsXor(b, c);
    OpsXor(Xor8(a, b), c);
    OpsXor(a, Xor8(b, c));
    XorAssoc(a, b, c);
  }

  lemma GroupHolds()
    ensures Group(OPS)
  {
    forall a, b, c ensures AssocAt(OPS, a, b, c) { AssocHolds(a, b, c); }
    forall a, b ensures CommAt(OPS, a, b) { CommHolds(a, b); }
    forall a ensures ZeroAt(OPS, a) { ZeroHolds(a); }
  }

  lemma CommHolds(a: bv8, b: bv8)
    ensures CommAt(OPS, a, b)
  {
  }

  lemma ZeroHolds(a: bv8)
    ensures ZeroAt(OPS, a)
  {
  }

  lemma StepXor(a: bv8, b: bv8)
    ensures Step(Xor8(a, b)) == Xor8(Step(a), Step(b))
  {
    var p, q := a & 0x80, b & 0x80;
    assert (a ^ b) & 0x80 == p ^ q;
    assert (a ^ b) << 1 == (a << 1) ^ (b << 1);
    if p == 0x80 {
      if q == 0x80 { } else { assert q == 0; }
    } else {
      assert p == 0;
    }
  }

  lemma StepHolds(a: bv8, b: bv8)
    ensures StepAt(OPS, a, b)
  {
    hide Step, Xor8;
    StepXor(a, b);
    OpsXor(a, b);
    OpsXor(Step(a), Step(b));
  }

  lemma ShiftHolds(a: bv8, b: bv8)
    ensures ShiftAt(OPS, a, b)
  {
  }

  lemma WideHolds(m: bv8, n: bv8)
    ensures WideAt(OPS, m, n)
  {
  }

  lemma SplitHolds(c: bv8)
    ensures SplitAt(OPS, c)
  {
    hide Steps;
    var s := Steps(OPS, 8, c);
    assert ZeroAt(OPS, s) && CommAt(OPS, s, 0);
  }

  lemma LinearHolds()
    ensures Linear(OPS)
  {
    forall a, b ensures StepAt(OPS, a, b) { StepHolds(a, b); }
    forall a, b ensures ShiftAt(OPS, a, b) { ShiftHolds(a, b); }
    forall m, n ensures WideAt(OPS, m, n) { WideHolds(m, n); }
    forall a ensures SplitAt(OPS, a) { SplitHolds(a); }
  }

  lemma InjectiveHolds(a: bv8, b: bv8)
    ensures InjectiveAt(OPS, a, b)
  {
  }

  lemma HalveHolds(a: bv8)
    ensures HalveAt(OPS, a)
  {
  }

  lemma InjectHolds(a: bv8, x: bool)
    ensures InjectAt(OPS, a, x)
  {
  }

  lemma EightHalves(c: bv8)
    ensures (((((((c << 1) << 1) << 1) << 1) << 1) << 1) << 1) << 1 == 0
    ensures ((((((c << 1) << 1) << 1) << 1) << 1) << 1) << 1 == 0 ==> c & 1 != 1
  {
  }

  lemma EightHolds(m: bv8)
    ensures EightAt(OPS, m)
  {
    HalvedEight(OPS, m);
    EightHalves(m);
  }

  lemma HighHolds(a: bv8)
    ensures HighAt(OPS, a)
  {
    HalvedSeven(OPS, a);
    EightHalves(a);
  }

  lemma LawsHold()
    ensures Laws(OPS)
  {
    GroupHolds();
    LinearHolds();
    forall a, b ensures InjectiveAt(OPS, a, b) { InjectiveHolds(a, b); }
    forall a ensures HalveAt(OPS, a) { HalveHolds(a); }
    forall a ensures HighAt(OPS, a) { HighHolds(a); }
    forall a, x ensures InjectAt(OPS, a, x) { InjectHolds(a, x); }
    forall m ensures EightAt(OPS, m) { EightHolds(m); }
  }

  // ---------------------------------------------------------------- the bitwise form

  function Low8(c: bv32): bv8 { (c & 0xff) as bv8 }
  function Wide(b: bv8): bv32 { b as bv32 }
  function Xor(a: bv32, b: bv32): bv32 { a ^ b }
  function And(a: bv32, b: bv32): bv32 { a & b }
  function And8(a: bv8, b: bv8): bv8 { a & b }

  /** One shift of the whole word; nothing is masked. */
  function WideStep(c: bv32): bv32
  {
    if c & 0x80 != 0 then (c << 1) ^ 7 else c << 1
  }

  /** Whatever sits above the low byte never comes back into it. */
  lemma StepLow(c: bv32)
    ensures Low8(WideStep(c)) == Step(Low8(c))
  {
  }

  lemma XorLow(c: bv32, b: bv8)
    ensures Low8(Xor(c, Wide(b))) == Xor8(Low8(c), b)
  {
  }

  lemma MaskedLow(c: bv32)
    ensures c & 0xff == Wide(Low8(c))
  {
  }

  lemma LowOfWide(b: bv8)
    ensures Low8(Wide(b)) == b
  {
  }

  lemma NoComplement(c: bv8)
    ensures Not(OPS, c) == c
  {
    GroupHolds();
    assert ZeroAt(OPS, c);
  }

  /** `bits` shifts of the word. */
  method Shifts(start: bv32, bits: nat) returns (crc: bv32)
    ensures Low8(crc) == Steps(OPS, bits, Low8(start))
  {
    hide Low8, Step;
    crc := start;
    var k := bits;
    while k > 0
      invariant 0 <= k <= bits
      invariant Steps(OPS, k, Low8(crc)) == Steps(OPS, bits, Low8(start))
    {
      StepLow(crc);
      crc := WideStep(crc);
      k := k - 1;
    }
  }

  /** `crc8_bit`. */
  method CrcBit(start: bv32, mem: array?<bv8>, len: nat) returns (crc: bv32)
    requires mem != null ==> len <= mem.Length
    ensures mem == null ==> crc == 0
    ensures mem != null ==> crc == Wide(Crc(OPS, Low8(start), mem[..len]))
  {
    hide Low8, Wide, Xor, Xor8, Not;
    if mem == null {
      return 0;
    }
    NoComplement(Low8(start));
    crc := start;
    var i := 0;
    while i < len
      invariant 0 <= i <= len
      invariant Low8(crc) == Register(OPS, Low8(start), mem[..i])
    {
      RegisterOneMore(OPS, Low8(start), mem[..i], mem[i]);
      assert mem[..i + 1] == mem[..i] + [mem[i]];
      crc := BitByte(crc, mem[i]);
      i := i + 1;
    }
    NoComplement(Low8(crc));
    MaskedLow(crc);
    crc := crc & 0xff;
  }

  /** The inner loop of `crc8_bit`. */
  method BitByte(start: bv32, b: bv8) returns (crc: bv32)
    ensures Low8(crc) == Byte(OPS, Low8(start), b)
  {
    hide Low8, Wide, Xor, Xor8;
    XorLow(start, b);
    OpsXor(Low8(start), b);
    crc := Shifts(Xor(start, Wide(b)), 8);
  }

  // ---------------------------------------------------------------- the table forms

  /** `table_byte[n]` and `table_word[k][n]`. */
  function Entry(k: nat, n: bv8): bv8
  {
    TableWord(OPS, k, n)
  }

  lemma Empty(crc: bv8)
    ensures Crc(OPS, crc, []) == crc
  {
    GroupHolds();
    CrcAppend(OPS, crc, [], []);
  }

  /** The CRC of a message may be computed in any pieces. */
  lemma Pieces(crc: bv8, a: seq<bv8>, b: seq<bv8>)
    ensures Crc(OPS, Crc(OPS, crc, a), b) == Crc(OPS, crc, a + b)
  {
    GroupHolds();
    CrcAppend(OPS, crc, a, b);
  }

  lemma OneMore(crc: bv8, a: seq<bv8>, b: bv8)
    ensures Crc(OPS, crc, a + [b]) == Entry(0, Xor8(Crc(OPS, crc, a), b))
  {
    GroupHolds();
    LinearHolds();
    CrcOneMore(OPS, crc, a, b);
    OnlyEntry(Crc(OPS, crc, a), b);
  }

  /** Nothing of the register is left beside the table entry. */
  lemma OnlyEntry(c: bv8, b: bv8)
    ensures ByteLookup(OPS, c, b) == Entry(0, Xor8(c, b))
  {
    hide TableByte;
    var e := TableByte(OPS, OPS.bxor(c, b));
    assert ZeroAt(OPS, e) && CommAt(OPS, e, 0) by { ZeroHolds(e); CommHolds(e, 0); }
    OpsXor(c, b);
  }

  lemma IndexLow(c: bv8, b: bv8)
    ensures Xor(Wide(c), Wide(b)) == Wide(Xor8(c, b)) && Xor(Wide(c), Wide(b)) <= 0xff
  {
  }

  /** The bytes of `mem` before `i` are in `crc`. */
  ghost predicate Done(start: bv8, mem: array<bv8>, i: nat, crc: bv32)
    reads mem
  {
    i <= mem.Length && crc == Wide(Crc(OPS, start, mem[..i]))
  }

  /** `crc = table_byte[crc ^ *data++]`. */
  method OneByte(ghost start: bv8, mem: array<bv8>, i: nat, crc: bv32) returns (next: bv32)
    requires i < mem.Length && Done(start, mem, i, crc)
    ensures Done(start, mem, i + 1, next)
  {
    hide Crc, Wide, Low8, Xor, Xor8, Entry;
    ghost var c := Crc(OPS, start, mem[..i]);
    OneMore(start, mem[..i], mem[i]);
    assert mem[..i + 1] == mem[..i] + [mem[i]];
    IndexLow(c, mem[i]);
    var index := Xor(crc, Wide(mem[i]));
    LowOfWide(Xor8(c, mem[i]));
    next := Wide(Entry(0, Low8(index)));
  }

  /** `crc8_byte`. */
  method CrcByte(start: bv32, mem: array?<bv8>, len: nat) returns (crc: bv32)
    requires mem != null ==> len <= mem.Length
    ensures mem == null ==> crc == 0
    ensures mem != null ==> crc == Wide(Crc(OPS, Low8(start), mem[..len]))
  {
    hide Crc, Wide, Low8;
    if mem == null {
      return 0;
    }
    Empty(Low8(start));
    MaskedLow(start);
    crc := start & 0xff;
    var i := 0;
    while i < len
      invariant 0 <= i <= len
      invariant Done(Low8(start), mem, i, crc)
    {
      crc := OneByte(Low8(start), mem, i, crc);
      i := i + 1;
    }
  }

  lemma RegisterByte(c: bv8)
    ensures Byte0(c as bv64) == c && Byte1(c as bv64) == 0 && Byte2(c as bv64) == 0 && Byte3(c as bv64) == 0
    ensures Byte4(c as bv64) == 0 && Byte5(c as bv64) == 0 && Byte6(c as bv64) == 0 && Byte7(c as bv64) == 0
  {
  }

  lemma SliceBytes(c: bv8, b0: bv8, b1: bv8, b2: bv8, b3: bv8, b4: bv8, b5: bv8, b6: bv8, b7: bv8, w: bv64)
    requires w == Xor64(c as bv64, LittleEndian(b0, b1, b2, b3, b4, b5, b6, b7))
    ensures Byte0(w) == Xor8(c, b0) && Byte1(w) == Xor8(0, b1) && Byte2(w) == Xor8(0, b2) && Byte3(w) == Xor8(0, b3)
    ensures Byte4(w) == Xor8(0, b4) && Byte5(w) == Xor8(0, b5) && Byte6(w) == Xor8(0, b6) && Byte7(w) == Xor8(0, b7)
  {
    hide *;
    var v := LittleEndian(b0, b1, b2, b3, b4, b5, b6, b7);
    BytesOfWord(b0, b1, b2, b3, b4, b5, b6, b7, v);
    XorByte0(c as bv64, v); XorByte1(c as bv64, v); XorByte2(c as bv64, v); XorByte3(c as bv64, v);
    XorByte4(c as bv64, v); XorByte5(c as bv64, v); XorByte6(c as bv64, v); XorByte7(c as bv64, v);
    RegisterByte(c);
  }

  /** After one byte nothing of the register is left. */
  lemma {:induction false} ShiftedZero(n: nat, c: bv8)
    requires n > 0
    ensures Shifted(OPS, n, c) == 0
  {
    if n > 1 { ShiftedZero(n - 1, 0); }
  }

  lemma IndexIs(crc: bv8, b: seq<bv8>, i: nat, index: bv8)
    requires i < |b| && index == Xor8(if i == 0 then crc else 0, b[i])
    ensures index == SliceIndex(OPS, crc, b, i)
  {
    if i > 0 { ShiftedZero(i, crc); }
  }

  /** `crc ^ *(uintmax_t const *)data`. */
  function SliceWord(crc: bv8, b: seq<bv8>): bv64
    requires |b| == 8
  {
    Xor64(crc as bv64, LittleEndian(b[0], b[1], b[2], b[3], b[4], b[5], b[6], b[7]))
  }

  /** The bytes of `crc ^ word` select the entries that the slicing form wants. */
  lemma WordIndex(crc: bv8, b: seq<bv8>, w: bv64)
    requires |b| == 8 && w == SliceWord(crc, b)
    ensures Byte0(w) == SliceIndex(OPS, crc, b, 0) && Byte1(w) == SliceIndex(OPS, crc, b, 1)
    ensures Byte2(w) == SliceIndex(OPS, crc, b, 2) && Byte3(w) == SliceIndex(OPS, crc, b, 3)
    ensures Byte4(w) == SliceIndex(OPS, crc, b, 4) && Byte5(w) == SliceIndex(OPS, crc, b, 5)
    ensures Byte6(w) == SliceIndex(OPS, crc, b, 6) && Byte7(w) == SliceIndex(OPS, crc, b, 7)
  {
    hide Xor64, Xor8, LittleEndian, Byte0, Byte1, Byte2, Byte3, Byte4, Byte5, Byte6, Byte7, Shifted, SliceIndex;
    SliceBytes(crc, b[0], b[1], b[2], b[3], b[4], b[5], b[6], b[7], w);
    IndexIs(crc, b, 0, Byte0(w)); IndexIs(crc, b, 1, Byte1(w));
    IndexIs(crc, b, 2, Byte2(w)); IndexIs(crc, b, 3, Byte3(w));
    IndexIs(crc, b, 4, Byte4(w)); IndexIs(crc, b, 5, Byte5(w));
    IndexIs(crc, b, 6, Byte6(w)); IndexIs(crc, b, 7, Byte7(w));
  }

  function XorEight(t0: bv8, t1: bv8, t2: bv8, t3: bv8, t4: bv8, t5: bv8, t6: bv8, t7: bv8): bv8
  {
    Xor8(Xor8(Xor8(Xor8(Xor8(Xor8(Xor8(t0, t1), t2), t3), t4), t5), t6), t7)
  }

  lemma XorEightIs(t0: bv8, t1: bv8, t2: bv8, t3: bv8, t4: bv8, t5: bv8, t6: bv8, t7: bv8)
    ensures XorEight(t0, t1, t2, t3, t4, t5, t6, t7)
         == OPS.xor(OPS.xor(OPS.xor(OPS.xor(OPS.xor(OPS.xor(OPS.xor(t0, t1), t2), t3), t4), t5), t6), t7)
  {
    hide Xor8;
    OpsXor(t0, t1);
    OpsXor(Xor8(t0, t1), t2);
    OpsXor(Xor8(Xor8(t0, t1), t2), t3);
    OpsXor(Xor8(Xor8(Xor8(t0, t1), t2), t3), t4);
    OpsXor(Xor8(Xor8(Xor8(Xor8(t0, t1), t2), t3), t4), t5);
    OpsXor(Xor8(Xor8(Xor8(Xor8(Xor8(t0, t1), t2), t3), t4), t5), t6);
    OpsXor(Xor8(Xor8(Xor8(Xor8(Xor8(Xor8(t0, t1), t2), t3), t4), t5), t6), t7);
  }

  lemma LookupIs(crc: bv8, b: seq<bv8>, i: nat)
    requires i < |b|
    ensures Lookup(OPS, crc, b, i) == TableWord(OPS, |b| - 1 - i, SliceIndex(OPS, crc, b, i))
  {
  }

  lemma ZeroIs()
    ensures OPS.zero == 0
  {
  }

  lemma LookupsAreWord(crc: bv8, b: seq<bv8>, w: bv64)
    requires |b| == 8 && w == SliceWord(crc, b)
    ensures XorEight(TableWord(OPS, 7, Byte0(w)), TableWord(OPS, 6, Byte1(w)), TableWord(OPS, 5, Byte2(w)),
                     TableWord(OPS, 4, Byte3(w)), TableWord(OPS, 3, Byte4(w)), TableWord(OPS, 2, Byte5(w)),
                     TableWord(OPS, 1, Byte6(w)), TableWord(OPS, 0, Byte7(w))) == Crc(OPS, crc, b)
  {
    hide *;
    WordIndex(crc, b, w);
    GroupHolds();
    LinearHolds();
    ShiftedZero(8, crc);
    ZeroIs();
    EightLookups(OPS, crc, b);
    forall i | 0 <= i < 8
      ensures Lookup(OPS, crc, b, i) == TableWord(OPS, 7 - i, SliceIndex(OPS, crc, b, i))
    {
      LookupIs(crc, b, i);
    }
    XorEightIs(TableWord(OPS, 7, Byte0(w)), TableWord(OPS, 6, Byte1(w)), TableWord(OPS, 5, Byte2(w)),
               TableWord(OPS, 4, Byte3(w)), TableWord(OPS, 3, Byte4(w)), TableWord(OPS, 2, Byte5(w)),
               TableWord(OPS, 1, Byte6(w)), TableWord(OPS, 0, Byte7(w)));
  }

  /** The body of the word loop of `crc8_word`. */
  method LookUpWord(start: bv32, b: seq<bv8>) returns (crc: bv32)
    requires |b| == 8 && start == Wide(Low8(start))
    ensures crc == Wide(Crc(OPS, Low8(start), b))
  {
    hide SliceWord, XorEight, TableWord, Crc, Byte0, Byte1, Byte2, Byte3, Byte4, Byte5, Byte6, Byte7, Low8, Wide;
    var word := SliceWord(Low8(start), b);
    LookupsAreWord(Low8(start), b, word);
    crc := Wide(XorEight(Entry(7, Byte0(word)), Entry(6, Byte1(word)), Entry(5, Byte2(word)), Entry(4, Byte3(word)),
                         Entry(3, Byte4(word)), Entry(2, Byte5(word)), Entry(1, Byte6(word)), Entry(0, Byte7(word))));
  }

  /** The body of the word loop, over the bytes from `i`. */
  method OneWord(ghost start: bv8, mem: array<bv8>, i: nat, crc: bv32) returns (next: bv32)
    requires i + 8 <= mem.Length && Done(start, mem, i, crc)
    ensures Done(start, mem, i + 8, next)
  {
    hide Crc, Wide, Low8;
    LowOfWide(Crc(OPS, start, mem[..i]));
    Pieces(start, mem[..i], mem[i..i + 8]);
    assert mem[..i + 8] == mem[..i] + mem[i..i + 8];
    next := LookUpWord(crc, mem[i..i + 8]);
  }

  /** `crc8_word`.  `address` is where `mem` begins. */
  method CrcWord(start: bv32, mem: array?<bv8>, len: nat, address: nat) returns (crc: bv32)
    requires mem != null ==> len <= mem.Length
    ensures mem == null ==> crc == 0
    ensures mem != null ==> crc == Wide(Crc(OPS, Low8(start), mem[..len]))
  {
    hide Crc, Wide, Low8;
    if mem == null {
      return 0;
    }
    Empty(Low8(start));
    MaskedLow(start);
    crc := start & 0xff;
    var i := 0;
    while i < len && (address + i) % 8 != 0
      invariant 0 <= i <= len
      invariant Done(Low8(start), mem, i, crc)
    {
      crc := OneByte(Low8(start), mem, i, crc);
      i := i + 1;
    }
    while len - i >= 8
      invariant 0 <= i <= len
      invariant Done(Low8(start), mem, i, crc)
    {
      crc := OneWord(Low8(start), mem, i, crc);
      i := i + 8;
    }
    while i < len
      invariant 0 <= i <= len
      invariant Done(Low8(start), mem, i, crc)
    {
      crc := OneByte(Low8(start), mem, i, crc);
      i := i + 1;
    }
  }

  // ---------------------------------------------------------------- the last bits

  /** `m` is `bits` ones from the top down. */
  predicate IsMask(m: bv8, bits: nat)
  {
    if bits == 0 then m == 0 else Odd(m) && IsMask(Half(m), bits - 1)
  }

  /** `0x100 - (0x100 >> bits)`. */
  function HighMask(bits: nat): bv32
    requires bits <= 8
  {
    0x100 - ((0x100 as bv32) >> bits)
  }

  lemma MaskIs(bits: nat)
    requires bits <= 8
    ensures IsMask(Low8(HighMask(bits)), bits)
  {
    assert IsMask(0, 0) && IsMask(0x80, 1) && IsMask(0xc0, 2) && IsMask(0xe0, 3) && IsMask(0xf0, 4);
    assert IsMask(0xf8, 5) && IsMask(0xfc, 6) && IsMask(0xfe, 7) && IsMask(0xff, 8);
    if bits == 0 {} else if bits == 1 {} else if bits == 2 {} else if bits == 3 {} else if bits == 4 {}
    else if bits == 5 {} else if bits == 6 {} else if bits == 7 {} else {}
  }

  lemma AndHalf(v: bv8, m: bv8)
    ensures Half(And8(v, m)) == And8(Half(v), Half(m)) && Odd(And8(v, m)) == (Odd(v) && Odd(m))
  {
  }

  lemma AndZero(v: bv8)
    ensures And8(v, 0) == 0
  {
  }

  lemma AndLow(v: bv32, m: bv32)
    ensures Low8(And(v, m)) == And8(Low8(v), Low8(m))
  {
  }

  /** Masking keeps the high bits and only them. */
  lemma {:induction false} HighBitsTaken(val: bv8, m: bv8, v: bv8, bits: nat)
    requires IsMask(m, bits) && v == And8(val, m)
    ensures Halved(OPS, bits, v) == 0
    ensures TakeBits(OPS, v, bits) == TakeBits(OPS, val, bits)
    decreases bits
  {
    hide Half, Odd, And8;
    if bits == 0 {
      AndZero(val);
    } else {
      AndHalf(val, m);
      HighBitsTaken(Half(val), Half(m), Half(v), bits - 1);
    }
  }

  /** The CRC after the first `bits` bits of a byte. */
  function Rem(crc: bv8, val: bv8, bits: nat): bv8
  {
    FoldBits(OPS, crc, TakeBits(OPS, val, bits))
  }

  /** `crc8_rem`. */
  method CrcRem(start: bv32, val: bv32, bits: nat) returns (crc: bv32)
    requires bits <= 8
    ensures crc == Wide(Rem(Low8(start), Low8(val), bits))
  {
    hide Low8, Wide, Xor, Xor8, And, HighMask;
    var v := And(val, HighMask(bits));
    RemByBits(start, val, v, bits);
    crc := Shifts(Xor(start, v), bits);
    MaskedLow(crc);
    crc := crc & 0xff;
  }

  lemma RemByBits(start: bv32, val: bv32, v: bv32, bits: nat)
    requires bits <= 8 && v == And(val, HighMask(bits))
    ensures Steps(OPS, bits, Low8(Xor(start, v))) == Rem(Low8(start), Low8(val), bits)
  {
    hide *;
    MaskIs(bits);
    AndLow(val, HighMask(bits));
    XorBoth(start, v);
    FedByBits(Low8(start), Low8(val), Low8(HighMask(bits)), Low8(v), bits);
  }

  lemma FedByBits(c: bv8, val: bv8, m: bv8, v: bv8, bits: nat)
    requires IsMask(m, bits) && v == And8(val, m)
    ensures Steps(OPS, bits, Xor8(c, v)) == Rem(c, val, bits)
  {
    hide Xor8, And8, IsMask;
    LawsHold();
    HighBitsTaken(val, m, v, bits);
    StepsAreBits(OPS, c, v, bits);
    OpsXor(c, v);
  }

  lemma XorBoth(c: bv32, v: bv32)
    ensures Low8(Xor(c, v)) == Xor8(Low8(c), Low8(v))
  {
  }

  /** The bits of a byte may be fed in two parts, and eight of them are the byte. */
  lemma RemSplits(crc: bv8, val: bv8, m: nat, n: nat)
    requires m + n <= 8
    ensures Rem(Rem(crc, val, m), Halved(OPS, m, val), n) == Rem(crc, val, m + n)
  {
    TakeAdd(OPS, val, m, n);
    FoldAppend(OPS, crc, TakeBits(OPS, val, m), TakeBits(OPS, Halved(OPS, m, val), n));
  }

  lemma RemOfByte(crc: bv8, b: bv8)
    ensures Rem(crc, b, 8) == Crc(OPS, crc, [b])
  {
    hide Not;
    LawsHold();
    RegisterIsBits(OPS, crc, [b]);
    NoComplement(crc);
    NoComplement(Register(OPS, crc, [b]));
    assert [b][1..] == [] && MessageBits(OPS, [b]) == TakeBits(OPS, b, 8);
  }

  // ---------------------------------------------------------------- what the library promises

  /** Two messages of the same length that differ, and differ only inside 8 consecutive bits, have different CRCs. */
  lemma BurstErrorsSeen(crc: bv8, a: seq<bv8>, b: seq<bv8>, i: nat)
    requires |a| == |b| && a != b
    requires AgreeOutside(MessageBits(OPS, a), MessageBits(OPS, b), i, 8)
    ensures Crc(OPS, crc, a) != Crc(OPS, crc, b)
  {
    LawsHold();
    BurstDetected(OPS, crc, a, b, i);
  }
}
