/** The literal tables of the 8-bit CRC, and its check value. */
module Crc8Tables {
  import opened CrcTheory
  import opened WordBytes
  import opened Crc8

  /** Eight shifts of the register. */
  function Eight(c: bv8): bv8
  {
    Step(Step(Step(Step(Step(Step(Step(Step(c))))))))
  }

  function Pick(j: nat, a: bv8, b: bv8, c: bv8, d: bv8, e: bv8, f: bv8, g: bv8, h: bv8): bv8
    requires j < 8
  {
    match j
    case 0 => a case 1 => b case 2 => c case 3 => d case 4 => e case 5 => f case 6 => g case _ => h
  }

  /** The source's `table_word[k][1 << j]`. */
  function Column(k: nat, j: nat): bv8
    requires k < 8 && j < 8
  {
    match k
    case 0 => Pick(j, 0x07, 0x0e, 0x1c, 0x38, 0x70, 0xe0, 0xc7, 0x89)
    case 1 => Pick(j, 0x15, 0x2a, 0x54, 0xa8, 0x57, 0xae, 0x5b, 0xb6)
    case 2 => Pick(j, 0x6b, 0xd6, 0xab, 0x51, 0xa2, 0x43, 0x86, 0x0b)
    case 3 => Pick(j, 0x16, 0x2c, 0x58, 0xb0, 0x67, 0xce, 0x9b, 0x31)
    case 4 => Pick(j, 0x62, 0xc4, 0x8f, 0x19, 0x32, 0x64, 0xc8, 0x97)
    case 5 => Pick(j, 0x29, 0x52, 0xa4, 0x4f, 0x9e, 0x3b, 0x76, 0xec)
    case 6 => Pick(j, 0xdf, 0xb9, 0x75, 0xea, 0xd3, 0xa1, 0x45, 0x8a)
    case _ => Pick(j, 0x13, 0x26, 0x4c, 0x98, 0x37, 0x6e, 0xdc, 0xbf)
  }

  /** `1 << j`. */
  function Power(j: nat): bv8
    requires j < 8
  {
    match j
    case 0 => 1 case 1 => 2 case 2 => 4 case 3 => 8 case 4 => 16 case 5 => 32 case 6 => 64 case _ => 128
  }

  lemma FirstEntry(n: bv8)
    ensures Entry(0, n) == Eight(n)
  {
    hide Step;
    EightTimes(OPS, n);
    NothingFolded(n);
    NothingAdded(Steps(OPS, 8, n));
  }

  lemma NothingFolded(n: bv8)
    ensures Not(OPS, OPS.shift(OPS.ones)) == 0 && OPS.wide(OPS.bxor(n, OPS.low(OPS.ones))) == n
  {
  }

  lemma NothingAdded(c: bv8)
    ensures OPS.xor(0, c) == c
  {
  }

  lemma NextEntry(k: nat, n: bv8)
    ensures Entry(k + 1, n) == Eight(Entry(k, n))
  {
    hide Step;
    StepsAdd(OPS, 8 * k, 8, TableByte(OPS, n));
    EightTimes(OPS, Entry(k, n));
  }

  lemma FirstRow(j: nat)
    requires j < 8
    ensures Eight(0) == 0 && Eight(Power(j)) == Column(0, j)
  {
  }

  lemma NextColumn(k: nat, j: nat)
    requires k < 7 && j < 8
    ensures Eight(Column(k, j)) == Column(k + 1, j)
  {
    if k == 0 {} else if k == 1 {} else if k == 2 {} else if k == 3 {}
    else if k == 4 {} else if k == 5 {} else {}
  }

  /** The generator gives what the source has in row 0, which is 0, and in the rows that are a power of two. */
  lemma {:induction false} BasisIsRight(k: nat, j: nat)
    requires k < 8 && j < 8
    ensures Entry(k, 0) == 0 && Entry(k, Power(j)) == Column(k, j)
  {
    hide Entry, Eight, Column, Power;
    FirstRow(j);
    if k == 0 {
      FirstEntry(0);
      FirstEntry(Power(j));
    } else {
      BasisIsRight(k - 1, j);
      NextEntry(k - 1, 0);
      NextEntry(k - 1, Power(j));
      NextColumn(k - 1, j);
    }
  }

  // ---------------------------------------------------------------- all other rows

  lemma EntryXor(k: nat, m: bv8, n: bv8)
    ensures Entry(k, Xor8(m, n)) == Xor8(Entry(k, m), Entry(k, n))
    decreases k
  {
    hide Entry, Eight, Xor8;
    if k == 0 {
      FirstEntry(m);
      FirstEntry(n);
      FirstEntry(Xor8(m, n));
      EightXor(m, n);
    } else {
      EntryXor(k - 1, m, n);
      NextEntry(k - 1, m);
      NextEntry(k - 1, n);
      NextEntry(k - 1, Xor8(m, n));
      EightXor(Entry(k - 1, m), Entry(k - 1, n));
    }
  }

  lemma EightXor(a: bv8, b: bv8)
    ensures Eight(Xor8(a, b)) == Xor8(Eight(a), Eight(b))
  {
    hide Xor8, Step;
    LinearHolds();
    StepsXor(OPS, 8, a, b);
    OpsXor(a, b);
    OpsXor(Steps(OPS, 8, a), Steps(OPS, 8, b));
    EightTimes(OPS, a);
    EightTimes(OPS, b);
    EightTimes(OPS, Xor8(a, b));
  }

  /** The bits of `n` below bit `j`. */
  function Below(n: bv8, j: nat): bv8
    requires j <= 8
  {
    if j == 0 then 0 else Xor8(Below(n, j - 1), n & Power(j - 1))
  }

  lemma AllBelow(n: bv8)
    ensures Below(n, 8) == n
  {
    assert Below(n, 1) == n & 1;
    assert Below(n, 2) == n & 3;
    assert Below(n, 3) == n & 7;
    assert Below(n, 4) == n & 0xf;
    assert Below(n, 5) == n & 0x1f;
    assert Below(n, 6) == n & 0x3f;
    assert Below(n, 7) == n & 0x7f;
  }

  /** The entry for the bits of `n` below bit `j`, from the literals of table `k`. */
  function Combined(k: nat, n: bv8, j: nat): bv8
    requires k < 8 && j <= 8
  {
    if j == 0 then 0
    else Xor8(Combined(k, n, j - 1), if n & Power(j - 1) != 0 then Column(k, j - 1) else 0)
  }

  lemma {:induction false} EntryBelow(k: nat, n: bv8, j: nat)
    requires k < 8 && j <= 8
    ensures Entry(k, Below(n, j)) == Combined(k, n, j)
  {
    hide Entry, Column, Power, Xor8;
    BasisIsRight(k, if j == 0 then 0 else j - 1);
    if j > 0 {
      var low, bit := Below(n, j - 1), n & Power(j - 1);
      EntryBelow(k, n, j - 1);
      EntryXor(k, low, bit);
      BitOrNone(n, j - 1);
    }
  }

  lemma BitOrNone(n: bv8, j: nat)
    requires j < 8
    ensures n & Power(j) == 0 || n & Power(j) == Power(j)
    ensures Power(j) != 0
  {
  }

  /** Every entry of the eight tables is fixed by 64 literals of the source, and is what the generator gives. */
  lemma EntryIsSource(k: nat, n: bv8)
    requires k < 8
    ensures Entry(k, n) == Combined(k, n, 8)
  {
    EntryBelow(k, n, 8);
    AllBelow(n);
  }

  // ---------------------------------------------------------------- the check value

  lemma OneByteOf(c: bv8, data: seq<bv8>, rest: seq<bv8>, next: bv8)
    requires data != [] && data[1..] == rest && Eight(Xor8(c, data[0])) == next
    ensures Register(OPS, c, data) == Register(OPS, next, rest)
  {
    hide Step, Xor8;
    EightTimes(OPS, Xor8(c, data[0]));
    OpsXor(c, data[0]);
  }

  /** The CRC of the nine digits "123456789". */
  lemma CheckValue()
    ensures Crc(OPS, 0, [0x31, 0x32, 0x33, 0x34, 0x35, 0x36, 0x37, 0x38, 0x39]) == 0xf4
  {
    var d: seq<bv8> := [0x31, 0x32, 0x33, 0x34, 0x35, 0x36, 0x37, 0x38, 0x39];
    NoComplement(0);
    NoComplement(0xf4);
    OneByteOf(0x00, d[0..], d[1..], 0x97);
    OneByteOf(0x97, d[1..], d[2..], 0x72);
    OneByteOf(0x72, d[2..], d[3..], 0xc0);
    OneByteOf(0xc0, d[3..], d[4..], 0xc2);
    OneByteOf(0xc2, d[4..], d[5..], 0xcb);
    OneByteOf(0xcb, d[5..], d[6..], 0xfd);
    OneByteOf(0xfd, d[6..], d[7..], 0x78);
    OneByteOf(0x78, d[7..], d[8..], 0xc7);
    OneByteOf(0xc7, d[8..], d[9..], 0xf4);
    assert d[0..] == d && d[9..] == [];
  }
}
