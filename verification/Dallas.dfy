/** The CRC of the 1-Wire bus: the table form of the SCU firmware, the bitwise form of the host library,
    and the test by which the host library accepts a device id. */
module Dallas {
  import opened CrcTheory

  function Xor(m: bv8, n: bv8): bv8 { m ^ n }

  /** One shift of the register. */
  function Step(c: bv8): bv8
  {
    if c & 1 == 1 then (c >> 1) ^ 0x8c else c >> 1
  }

  /** What a shift folds in: the polynomial x^8 + x^5 + x^4 + 1, with the coefficient of x^e in bit 7 - e. */
  lemma PolynomialIs(c: bv8)
    ensures Step(c) == (c >> 1) ^ if c & 1 == 0 then 0 else (0x80 >> 0) | (0x80 >> 4) | (0x80 >> 5)
  {
  }

  function Nothing(c: bv8): bv8 { 0 }
  function Same(c: bv8): bv8 { c }
  function Half(c: bv8): bv8 { c >> 1 }
  function Odd(c: bv8): bool { c & 1 == 1 }
  function Inject(x: bool): bv8 { if x then 1 else 0 }
  function High(c: bv8): bool { c & 0x80 == 0x80 }

  /** The register takes its lowest bit first, is not complemented, and is shifted out by one byte. */
  const OPS: Ops<bv8, bv8> := Ops(Xor, 0, 0, Step, Nothing, Same, Same, Xor, Half, Odd, Inject, High, 8)

  // ---------------------------------------------------------------- the laws hold

  lemma OpsXor(a: bv8, b: bv8)
    ensures OPS.xor(a, b) == Xor(a, b)
  {
  }

  lemma XorAssoc(a: bv8, b: bv8, c: bv8)
    ensures Xor(Xor(a, b), c) == Xor(a, Xor(b, c))
  {
  }

  lemma AssocHolds(a: bv8, b: bv8, c: bv8)
    ensures AssocAt(OPS, a, b, c)
  {
    hide Xor;
    OpsXor(a, b);
    OpsXor(b, c);
    OpsXor(Xor(a, b), c);
    OpsXor(a, Xor(b, c));
    XorAssoc(a, b, c);
  }

  lemma CommHolds(a: bv8, b: bv8)
    ensures CommAt(OPS, a, b)
  {
  }

  lemma ZeroHolds(a: bv8)
    ensures ZeroAt(OPS, a)
  {
  }

  lemma GroupHolds()
    ensures Group(OPS)
  {
    forall a, b, c ensures AssocAt(OPS, a, b, c) { AssocHolds(a, b, c); }
    forall a, b ensures CommAt(OPS, a, b) { CommHolds(a, b); }
    forall a ensures ZeroAt(OPS, a) { ZeroHolds(a); }
  }

  lemma StepXor(a: bv8, b: bv8)
    ensures Step(Xor(a, b)) == Xor(Step(a), Step(b))
  {
    var p, q := a & 1, b & 1;
    assert (a ^ b) & 1 == p ^ q;
    assert (a ^ b) >> 1 == (a >> 1) ^ (b >> 1);
    if p == 1 {
      if q == 1 { } else { assert q == 0; }
    } else {
      assert p == 0;
    }
  }

  lemma StepHolds(a: bv8, b: bv8)
    ensures StepAt(OPS, a, b)
  {
    hide Step, Xor;
    StepXor(a, b);
    OpsXor(a, b);
    OpsXor(Step(a), Step(b));
  }

  lemma ShiftHolds(a: bv8, b: bv8)
    ensures ShiftAt(OPS, a, b)
  {
  }

  lemma WideHolds(m: bv8, n: bv8)
    ensures WideAt(OPS, m, n)
  {
  }

  lemma SplitHolds(c: bv8)
    ensures SplitAt(OPS, c)
  {
    hide Steps;
    var s := Steps(OPS, 8, c);
    assert ZeroAt(OPS, s) && CommAt(OPS, s, 0);
  }

  lemma LinearHolds()
    ensures Linear(OPS)
  {
    forall a, b ensures StepAt(OPS, a, b) { StepHolds(a, b); }
    forall a, b ensures ShiftAt(OPS, a, b) { ShiftHolds(a, b); }
    forall m, n ensures WideAt(OPS, m, n) { WideHolds(m, n); }
    forall a ensures SplitAt(OPS, a) { SplitHolds(a); }
  }

  lemma InjectiveHolds(a: bv8, b: bv8)
    ensures InjectiveAt(OPS, a, b)
  {
  }

  lemma HalveHolds(a: bv8)
    ensures HalveAt(OPS, a)
  {
  }

  lemma InjectHolds(a: bv8, x: bool)
    ensures InjectAt(OPS, a, x)
  {
  }

  lemma EightHalves(c: bv8)
    ensures (((((((c >> 1) >> 1) >> 1) >> 1) >> 1) >> 1) >> 1) >> 1 == 0
    ensures ((((((c >> 1) >> 1) >> 1) >> 1) >> 1) >> 1) >> 1 == 0 ==> c & 0x80 != 0x80
  {
  }

  lemma EightHolds(m: bv8)
    ensures EightAt(OPS, m)
  {
    HalvedEight(OPS, m);
    EightHalves(m);
  }

  lemma HighHolds(a: bv8)
    ensures HighAt(OPS, a)
  {
    HalvedSeven(OPS, a);
    EightHalves(a);
  }

  lemma LawsHold()
    ensures Laws(OPS)
  {
    GroupHolds();
    LinearHolds();
    forall a, b ensures InjectiveAt(OPS, a, b) { InjectiveHolds(a, b); }
    forall a ensures HalveAt(OPS, a) { HalveHolds(a); }
    forall a ensures HighAt(OPS, a) { HighHolds(a); }
    forall a, x ensures InjectAt(OPS, a, x) { InjectHolds(a, x); }
    forall m ensures EightAt(OPS, m) { EightHolds(m); }
  }

  /** The CRC of some bytes. */
  function CrcOf(data: seq<bv8>): bv8
  {
    Register(OPS, 0, data)
  }

  // ---------------------------------------------------------------- the table

  function Row0(n: bv8): bv8
  {
    match n
    case 0 => 0 case 1 => 94 case 2 => 188 case 3 => 226 case 4 => 97 case 5 => 63 case 6 => 221 case 7 => 131
    case 8 => 194 case 9 => 156 case 10 => 126 case 11 => 32 case 12 => 163 case 13 => 253 case 14 => 31 case _ => 65
  }

  function Row1(n: bv8): bv8
  {
    match n
    case 0 => 157 case 1 => 195 case 2 => 33 case 3 => 127 case 4 => 252 case 5 => 162 case 6 => 64 case 7 => 30
    case 8 => 95 case 9 => 1 case 10 => 227 case 11 => 189 case 12 => 62 case 13 => 96 case 14 => 130 case _ => 220
  }

  function Row2(n: bv8): bv8
  {
    match n
    case 0 => 35 case 1 => 125 case 2 => 159 case 3 => 193 case 4 => 66 case 5 => 28 case 6 => 254 case 7 => 160
    case 8 => 225 case 9 => 191 case 10 => 93 case 11 => 3 case 12 => 128 case 13 => 222 case 14 => 60 case _ => 98
  }

  function Row3(n: bv8): bv8
  {
    match n
    case 0 => 190 case 1 => 224 case 2 => 2 case 3 => 92 case 4 => 223 case 5 => 129 case 6 => 99 case 7 => 61
    case 8 => 124 case 9 => 34 case 10 => 192 case 11 => 158 case 12 => 29 case 13 => 67 case 14 => 161 case _ => 255
  }

  function Row4(n: bv8): bv8
  {
    match n
    case 0 => 70 case 1 => 24 case 2 => 250 case 3 => 164 case 4 => 39 case 5 => 121 case 6 => 155 case 7 => 197
    case 8 => 132 case 9 => 218 case 10 => 56 case 11 => 102 case 12 => 229 case 13 => 187 case 14 => 89 case _ => 7
  }

  function Row5(n: bv8): bv8
  {
    match n
    case 0 => 219 case 1 => 133 case 2 => 103 case 3 => 57 case 4 => 186 case 5 => 228 case 6 => 6 case 7 => 88
    case 8 => 25 case 9 => 71 case 10 => 165 case 11 => 251 case 12 => 120 case 13 => 38 case 14 => 196 case _ => 154
  }

  function Row6(n: bv8): bv8
  {
    match n
    case 0 => 101 case 1 => 59 case 2 => 217 case 3 => 135 case 4 => 4 case 5 => 90 case 6 => 184 case 7 => 230
    case 8 => 167 case 9 => 249 case 10 => 27 case 11 => 69 case 12 => 198 case 13 => 152 case 14 => 122 case _ => 36
  }

  function Row7(n: bv8): bv8
  {
    match n
    case 0 => 248 case 1 => 166 case 2 => 68 case 3 => 26 case 4 => 153 case 5 => 199 case 6 => 37 case 7 => 123
    case 8 => 58 case 9 => 100 case 10 => 134 case 11 => 216 case 12 => 91 case 13 => 5 case 14 => 231 case _ => 185
  }

  function Row8(n: bv8): bv8
  {
    match n
    case 0 => 140 case 1 => 210 case 2 => 48 case 3 => 110 case 4 => 237 case 5 => 179 case 6 => 81 case 7 => 15
    case 8 => 78 case 9 => 16 case 10 => 242 case 11 => 172 case 12 => 47 case 13 => 113 case 14 => 147 case _ => 205
  }

  function Row9(n: bv8): bv8
  {
    match n
    case 0 => 17 case 1 => 79 case 2 => 173 case 3 => 243 case 4 => 112 case 5 => 46 case 6 => 204 case 7 => 146
    case 8 => 211 case 9 => 141 case 10 => 111 case 11 => 49 case 12 => 178 case 13 => 236 case 14 => 14 case _ => 80
  }

  function Row10(n: bv8): bv8
  {
    match n
    case 0 => 175 case 1 => 241 case 2 => 19 case 3 => 77 case 4 => 206 case 5 => 144 case 6 => 114 case 7 => 44
    case 8 => 109 case 9 => 51 case 10 => 209 case 11 => 143 case 12 => 12 case 13 => 82 case 14 => 176 case _ => 238
  }

  function Row11(n: bv8): bv8
  {
    match n
    case 0 => 50 case 1 => 108 case 2 => 142 case 3 => 208 case 4 => 83 case 5 => 13 case 6 => 239 case 7 => 177
    case 8 => 240 case 9 => 174 case 10 => 76 case 11 => 18 case 12 => 145 case 13 => 207 case 14 => 45 case _ => 115
  }

  function Row12(n: bv8): bv8
  {
    match n
    case 0 => 202 case 1 => 148 case 2 => 118 case 3 => 40 case 4 => 171 case 5 => 245 case 6 => 23 case 7 => 73
    case 8 => 8 case 9 => 86 case 10 => 180 case 11 => 234 case 12 => 105 case 13 => 55 case 14 => 213 case _ => 139
  }

  function Row13(n: bv8): bv8
  {
    match n
    case 0 => 87 case 1 => 9 case 2 => 235 case 3 => 181 case 4 => 54 case 5 => 104 case 6 => 138 case 7 => 212
    case 8 => 149 case 9 => 203 case 10 => 41 case 11 => 119 case 12 => 244 case 13 => 170 case 14 => 72 case _ => 22
  }

  function Row14(n: bv8): bv8
  {
    match n
    case 0 => 233 case 1 => 183 case 2 => 85 case 3 => 11 case 4 => 136 case 5 => 214 case 6 => 52 case 7 => 106
    case 8 => 43 case 9 => 117 case 10 => 151 case 11 => 201 case 12 => 74 case 13 => 20 case 14 => 246 case _ => 168
  }

  function Row15(n: bv8): bv8
  {
    match n
    case 0 => 116 case 1 => 42 case 2 => 200 case 3 => 150 case 4 => 21 case 5 => 75 case 6 => 169 case 7 => 247
    case 8 => 182 case 9 => 232 case 10 => 10 case 11 => 84 case 12 => 215 case 13 => 137 case 14 => 107 case _ => 53
  }

  /** `dow_crc_table`, entry by entry. */
  function Entry(n: bv8): bv8
  {
    match n >> 4
    case 0 => Row0(n & 0xf)
    case 1 => Row1(n & 0xf)
    case 2 => Row2(n & 0xf)
    case 3 => Row3(n & 0xf)
    case 4 => Row4(n & 0xf)
    case 5 => Row5(n & 0xf)
    case 6 => Row6(n & 0xf)
    case 7 => Row7(n & 0xf)
    case 8 => Row8(n & 0xf)
    case 9 => Row9(n & 0xf)
    case 10 => Row10(n & 0xf)
    case 11 => Row11(n & 0xf)
    case 12 => Row12(n & 0xf)
    case 13 => Row13(n & 0xf)
    case 14 => Row14(n & 0xf)
    case _ => Row15(n & 0xf)
  }

  function EightSteps(c: bv8): bv8
  {
    Step(Step(Step(Step(Step(Step(Step(Step(c))))))))
  }

  lemma LowHalfIsRight(n: bv8)
    requires n < 0x80
    ensures Entry(n) == EightSteps(n)
  {
  }

  lemma HighHalfIsRight(n: bv8)
    requires n >= 0x80
    ensures Entry(n) == EightSteps(n)
  {
  }

  lemma TableIsRight(n: bv8)
    ensures Entry(n) == EightSteps(n)
  {
    hide Entry, EightSteps;
    if n < 0x80 { LowHalfIsRight(n); } else { HighHalfIsRight(n); }
  }

  /** Every entry of the table is its index moved on by one byte. */
  lemma EntryIsByte(c: bv8, b: bv8)
    ensures Entry(Xor(c, b)) == Byte(OPS, c, b)
  {
    hide Entry, Step, Xor;
    TableIsRight(Xor(c, b));
    OpsXor(c, b);
    EightTimes(OPS, Xor(c, b));
  }

  function ByteAt(v: bv32, i: nat): bv8
    requires i <= 24
  {
    ((v >> i) & 0xff) as bv8
  }

  /** The bytes of a word, low byte first. */
  function Bytes(v: bv32): (s: seq<bv8>)
    ensures |s| == 4
  {
    [ByteAt(v, 0), ByteAt(v, 8), ByteAt(v, 16), ByteAt(v, 24)]
  }

  /** One loop of `calc_crc`. */
  method FourBytes(start: bv8, id: bv32) returns (crc: bv8)
    ensures crc == Register(OPS, start, Bytes(id))
  {
    hide ByteAt, Entry, Xor, Byte;
    crc := start;
    var i := 0;
    while i <= 24
      invariant 0 <= i <= 32 && i % 8 == 0
      invariant crc == Register(OPS, start, Bytes(id)[..i / 8])
    {
      var b := ByteAt(id, i);
      RegisterOneMore(OPS, start, Bytes(id)[..i / 8], b);
      assert Bytes(id)[..(i + 8) / 8] == Bytes(id)[..i / 8] + [b];
      EntryIsByte(crc, b);
      crc := Entry(Xor(crc, b));
      i := i + 8;
    }
    assert Bytes(id)[..4] == Bytes(id);
  }

  /** `calc_crc`: the table form, over the low word and then the high word. */
  method CalcCrc(idHigh: bv32, idLow: bv32) returns (crc: bv8)
    ensures crc == CrcOf(Bytes(idLow) + Bytes(idHigh))
  {
    hide Bytes;
    crc := FourBytes(0, idLow);
    crc := FourBytes(crc, idHigh);
    RegisterAppend(OPS, 0, Bytes(idLow), Bytes(idHigh));
  }

  // ---------------------------------------------------------------- the bitwise form

  lemma MixIsStep(crc: bv8, b: bv8)
    ensures OPS.step(OPS.xor(crc, OPS.inject(Odd(b)))) == if (crc ^ b) & 1 != 0 then (crc >> 1) ^ 0x8c else crc >> 1
  {
  }

  /** The inner loop of `wire1_crc8`: one byte, mixed in bit by bit. */
  method EightBits(start: bv8, b: bv8) returns (crc: bv8)
    ensures crc == Byte(OPS, start, b)
  {
    ByteIsBits(start, b);
    crc := start;
    var inbyte := b;
    var j := 0;
    while j < 8
      invariant 0 <= j <= 8
      invariant FoldBits(OPS, crc, TakeBits(OPS, inbyte, 8 - j)) == Byte(OPS, start, b)
    {
      crc, inbyte := OneBit(crc, inbyte, 8 - j);
      j := j + 1;
    }
  }

  /** The body of that loop, with `n` bits to go. */
  method OneBit(start: bv8, b: bv8, ghost n: nat) returns (crc: bv8, inbyte: bv8)
    requires n > 0
    ensures FoldBits(OPS, crc, TakeBits(OPS, inbyte, n - 1)) == FoldBits(OPS, start, TakeBits(OPS, b, n))
  {
    MixIsStep(start, b);
    FoldOne(start, b, n);
    var mix := (start ^ b) & 1;
    crc := start >> 1;
    if mix != 0 { crc := crc ^ 0x8c; }
    inbyte := b >> 1;
  }

  lemma FoldOne(c: bv8, b: bv8, n: nat)
    requires n > 0
    ensures FoldBits(OPS, c, TakeBits(OPS, b, n))
         == FoldBits(OPS, OPS.step(OPS.xor(c, OPS.inject(Odd(b)))), TakeBits(OPS, Half(b), n - 1))
  {
    hide Half, Odd, Step, Xor;
    assert TakeBits(OPS, b, n)[1..] == TakeBits(OPS, Half(b), n - 1);
  }

  lemma ByteIsBits(c: bv8, b: bv8)
    ensures FoldBits(OPS, c, TakeBits(OPS, b, 8)) == Byte(OPS, c, b)
  {
    LawsHold();
    assert EightAt(OPS, b) by { EightHolds(b); }
    StepsAreBits(OPS, c, b, 8);
  }

  /** `wire1_crc8`.  For family 0x28 it gives back the byte behind the data instead of a CRC. */
  method Wire1Crc8(addr: array<bv8>, len: nat, family: bv8) returns (crc: bv8)
    requires if family == 0x28 then len < addr.Length else len <= addr.Length
    ensures crc == if family == 0x28 then addr[len] else CrcOf(addr[..len])
  {
    hide Byte;
    if family == 0x28 {
      return addr[len];
    }
    crc := 0;
    var i := 0;
    while i < len
      invariant 0 <= i <= len
      invariant crc == CrcOf(addr[..i])
    {
      RegisterOneMore(OPS, 0, addr[..i], addr[i]);
      assert addr[..i + 1] == addr[..i] + [addr[i]];
      crc := EightBits(crc, addr[i]);
      i := i + 1;
    }
  }

  // ---------------------------------------------------------------- accepting an id

  function LowWord(rom: bv64): bv32 { (rom & 0xffff_ffff) as bv32 }
  function HighWord(rom: bv64): bv32 { (rom >> 32) as bv32 }
  function FamilyOf(rom: bv64): bv8 { (rom & 0xff) as bv8 }

  /** The eight bytes of an id in memory, low byte first. */
  function RomBytes(rom: bv64): (s: seq<bv8>)
    ensures |s| == 8
  {
    Bytes(LowWord(rom)) + Bytes(HighWord(rom))
  }

  /** The bytes of an id, written out. */
  lemma RomBytesAre(rom: bv64)
    ensures var s := RomBytes(rom);
      && s[0] as bv64 == rom & 0xff && s[1] as bv64 == (rom >> 8) & 0xff && s[2] as bv64 == (rom >> 16) & 0xff
      && s[3] as bv64 == (rom >> 24) & 0xff && s[4] as bv64 == (rom >> 32) & 0xff && s[5] as bv64 == (rom >> 40) & 0xff
      && s[6] as bv64 == (rom >> 48) & 0xff && s[7] as bv64 == rom >> 56
    ensures FamilyOf(rom) == 0x28 <==> rom & 0xff == 0x28
  {
    hide ByteAt, LowWord, HighWord;
    LowBytes(rom);
    HighBytes(rom);
    FamilyIs(rom);
  }

  lemma FamilyIs(rom: bv64)
    ensures FamilyOf(rom) == 0x28 <==> rom & 0xff == 0x28
  {
  }

  lemma LowBytes(rom: bv64)
    ensures ByteAt(LowWord(rom), 0) as bv64 == rom & 0xff && ByteAt(LowWord(rom), 8) as bv64 == (rom >> 8) & 0xff
    ensures ByteAt(LowWord(rom), 16) as bv64 == (rom >> 16) & 0xff
    ensures ByteAt(LowWord(rom), 24) as bv64 == (rom >> 24) & 0xff
  {
  }

  lemma HighBytes(rom: bv64)
    ensures ByteAt(HighWord(rom), 0) as bv64 == (rom >> 32) & 0xff
    ensures ByteAt(HighWord(rom), 8) as bv64 == (rom >> 40) & 0xff
    ensures ByteAt(HighWord(rom), 16) as bv64 == (rom >> 48) & 0xff
    ensures ByteAt(HighWord(rom), 24) as bv64 == rom >> 56
  {
  }

  lemma OneByteOf(c: bv8, data: seq<bv8>, rest: seq<bv8>, next: bv8)
    requires data != [] && data[1..] == rest && Step(Step(Step(Step(Step(Step(Step(Step(Xor(c, data[0]))))))))) == next
    ensures Register(OPS, c, data) == Register(OPS, next, rest)
  {
    hide Step, Xor;
    EightTimes(OPS, Xor(c, data[0]));
    OpsXor(c, data[0]);
  }

  /** An id with the CRC that its maker gives: 02 1c b8 01 00 00 00 and a2. */
  lemma CheckValue()
    ensures CrcOf([0x02, 0x1c, 0xb8, 0x01, 0, 0, 0]) == 0xa2
  {
    var d: seq<bv8> := [0x02, 0x1c, 0xb8, 0x01, 0, 0, 0];
    OneByteOf(0x0, d[0..], d[1..], 0xbc);
    OneByteOf(0xbc, d[1..], d[2..], 0xaf);
    OneByteOf(0xaf, d[2..], d[3..], 0x1e);
    OneByteOf(0x1e, d[3..], d[4..], 0xdc);
    OneByteOf(0xdc, d[4..], d[5..], 0xf4);
    OneByteOf(0xf4, d[5..], d[6..], 0x15);
    OneByteOf(0x15, d[6..], d[7..], 0xa2);
    assert d[0..] == d && d[7..] == [];
  }

  /** A byte leaves the register at 0 only if it equals the register. */
  lemma LastByteClears(c: bv8, b: bv8)
    ensures Byte(OPS, c, b) == 0 <==> c == b
  {
    LawsHold();
    StepsInjectiveZero(c, b);
  }

  lemma StepsInjectiveZero(c: bv8, b: bv8)
    requires Laws(OPS)
    ensures Steps(OPS, 8, OPS.xor(c, OPS.wide(b))) == 0 <==> c == b
  {
    StepsZero(8);
    if Steps(OPS, 8, OPS.xor(c, OPS.wide(b))) == 0 {
      StepsInjective(OPS, 8, OPS.xor(c, OPS.wide(b)), 0);
    }
    XorZero(c, b);
  }

  lemma XorZero(c: bv8, b: bv8)
    ensures OPS.xor(c, OPS.wide(b)) == 0 <==> c == b
  {
  }

  lemma {:induction false} StepsZero(n: nat)
    ensures Steps(OPS, n, 0) == 0
  {
    if n > 0 { StepsZero(n - 1); }
  }

  /** The last byte of an id is the CRC of the others exactly if the CRC of the whole id is 0. */
  lemma CrcOfWhole(s: seq<bv8>)
    requires |s| > 0
    ensures CrcOf(s) == 0 <==> CrcOf(s[..|s| - 1]) == s[|s| - 1]
  {
    var n := |s| - 1;
    assert s == s[..n] + [s[n]];
    RegisterOneMore(OPS, 0, s[..n], s[n]);
    LastByteClears(CrcOf(s[..n]), s[n]);
  }

  datatype Status = Ok | Address | OutOfMemory

  /** What an id has to satisfy. */
  predicate Accepted(rom: bv64)
  {
    var s := RomBytes(rom);
    s[7] != 0 && (FamilyOf(rom) != 0x28 ==> CrcOf(s) == 0)
  }

  /** `(d->rom & 0xff) == family`. */
  predicate InFamily(rom: bv64, family: bv32)
  {
    rom & 0xff == family as bv64
  }

  /** The position of the first device of a family, or the number of devices. */
  function FirstOf(devices: seq<bv64>, family: bv32): (i: nat)
    ensures i <= |devices|
    ensures forall j | 0 <= j < i :: !InFamily(devices[j], family)
    ensures i < |devices| ==> InFamily(devices[i], family)
  {
    hide InFamily;
    if devices == [] then 0
    else if InFamily(devices[0], family) then 0
    else 1 + FirstOf(devices[1..], family)
  }

  /** The search of `wb_1wire_get_id` over the devices that the bus scan has found. */
  method GetId(devices: seq<bv64>, family: bv32) returns (status: Status, id: bv64)
    ensures var i := FirstOf(devices, family);
      if i == |devices| then status == OutOfMemory && id == 0
      else id == devices[i] && status == if Accepted(devices[i]) then Ok else Address
    ensures status == OutOfMemory ==> id == 0 && forall j | 0 <= j < |devices| :: devices[j] & 0xff != family as bv64
    ensures status != OutOfMemory ==> exists i ::
      && 0 <= i < |devices| && id == devices[i] && id & 0xff == family as bv64
      && forall j | 0 <= j < i :: devices[j] & 0xff != family as bv64
    ensures status == Ok ==> id >> 56 != 0 && (id & 0xff == 0x28 || CrcOf(RomBytes(id)) == 0)
  {
    hide Accepted, RomBytes;
    id := 0;
    var i := 0;
    while i < |devices|
      invariant 0 <= i <= |devices| && id == 0
      invariant FirstOf(devices, family) == i + FirstOf(devices[i..], family)
    {
      if InFamily(devices[i], family) {
        id := devices[i];
        status := Check(id, family);
        return;
      }
      assert devices[i..][1..] == devices[i + 1..];
      i := i + 1;
    }
    status := OutOfMemory;
  }

  lemma SameFamily(rom: bv64, family: bv32)
    requires InFamily(rom, family)
    ensures (family & 0xff) as bv8 == FamilyOf(rom)
  {
  }

  /** The test of one id: `crc` is compared with the top byte, and 0 is never accepted. */
  method Check(rom: bv64, family: bv32) returns (status: Status)
    requires InFamily(rom, family)
    ensures status == if Accepted(rom) then Ok else Address
    ensures status == Ok <==> rom >> 56 != 0 && (rom & 0xff == 0x28 || CrcOf(RomBytes(rom)) == 0)
  {
    SameFamily(rom, family);
    RomBytesAre(rom);
    ghost var s := RomBytes(rom);
    CrcOfWhole(s);
    var addr := MemoryOf(rom);
    var crc := Wire1Crc8(addr, 7, (family & 0xff) as bv8);
    assert addr[..7] == s[..7];
    status := if crc == 0 then Address else if crc == addr[7] then Ok else Address;
  }

  /** The id as the bytes that the program sees behind `(uint8_t*)id`. */
  method MemoryOf(rom: bv64) returns (addr: array<bv8>)
    ensures fresh(addr) && addr.Length == 8 && addr[..] == RomBytes(rom)
  {
    var s := RomBytes(rom);
    addr := new bv8[8](i requires 0 <= i < 8 => s[i]);
  }

  /** The host library and the firmware agree on the ids they accept, except for family 0x28 and a zero top byte:
      `crc` is what the firmware computes from the id. */
  method FirmwareAgrees(rom: bv64) returns (crc: bv8)
    ensures crc == CrcOf(RomBytes(rom))
    ensures Accepted(rom) <==> RomBytes(rom)[7] != 0 && (FamilyOf(rom) == 0x28 || crc == 0)
  {
    crc := CalcCrc(HighWord(rom), LowWord(rom));
  }

  /** Two different ids that are both accepted differ in more than 8 consecutive bits. */
  lemma NoShortErrorAccepted(p: bv64, q: bv64, i: nat)
    requires Accepted(p) && Accepted(q) && FamilyOf(p) != 0x28 && FamilyOf(q) != 0x28
    requires AgreeOutside(MessageBits(OPS, RomBytes(p)), MessageBits(OPS, RomBytes(q)), i, 8)
    ensures RomBytes(p) == RomBytes(q)
  {
    var a, b := RomBytes(p), RomBytes(q);
    if a != b {
      LawsHold();
      BurstDetected(OPS, 0, a, b, i);
      NoComplement(0);
      NoComplement(CrcOf(a));
      NoComplement(CrcOf(b));
    }
  }

  lemma NoComplement(c: bv8)
    ensures Not(OPS, c) == c
  {
    assert ZeroAt(OPS, c) by { ZeroHolds(c); }
  }
}
