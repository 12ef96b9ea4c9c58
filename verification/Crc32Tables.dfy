/** The literal tables of the 32-bit CRC, and its check value. */
module Crc32Tables {
  import opened CrcTheory
  import opened WordBytes
  import opened Crc32

  /** Eight shifts of the register. */
  function Eight(c: bv32): bv32
  {
    Step(Step(Step(Step(Step(Step(Step(Step(c))))))))
  }

  /** The source's `table_word[k][0]`. */
  function Corner(k: nat): bv32
    requires k < 8
  {
    match k
    case 0 => 0xd202_ef8d
    case 1 => 0x93db_fd72
    case 2 => 0xbe98_cbed
    case 3 => 0xde05_060e
    case 4 => 0xe766_2801
    case 5 => 0x77e0_56be
    case 6 => 0x2cae_7edd
    case _ => 0xf84e_0017
  }

  function Pick(j: nat, a: bv32, b: bv32, c: bv32, d: bv32, e: bv32, f: bv32, g: bv32, h: bv32): bv32
    requires j < 8
  {
    match j
    case 0 => a case 1 => b case 2 => c case 3 => d case 4 => e case 5 => f case 6 => g case _ => h
  }

  /** The source's `table_word[k][1 << j]`. */
  function Column(k: nat, j: nat): bv32
    requires k < 8 && j < 8
  {
    match k
    case 0 => Pick(j, 0xa505_df1b, 0x3c0c_8ea1, 0xd56f_2b94, 0xdcd9_67bf,
                   0xcfb5_ffe9, 0xe96c_cf45, 0xa4de_ae1d, 0x3fba_6cad)
    case 1 => Pick(j, 0x8ac0_cc33, 0xa1ed_9ff0, 0xf7b7_3876, 0x5b02_777a,
                   0xd919_ef23, 0x065f_d9d0, 0x63a2_b277, 0xa858_6539)
    case 2 => Pick(j, 0xbf5a_a1da, 0xbd1c_1f83, 0xb991_6331, 0xb08b_9a55,
                   0xa2be_689d, 0x86d5_8d0d, 0xce02_462d, 0x5fad_d06d)
    case 3 => Pick(j, 0x66b9_616b, 0x740c_ce85, 0x5167_9159, 0x1bb1_2ee1,
                   0x8e1c_5191, 0x7e37_a930, 0x4511_5e33, 0x335c_b035)
    case 4 => Pick(j, 0xda06_01b1, 0x9da6_7b61, 0x12e6_8ec1, 0xd716_63c0,
                   0x8786_bf83, 0x26a7_0705, 0xbf95_7048, 0x5680_9893)
    case 5 => Pick(j, 0xbcbc_851b, 0x3a28_f7b5, 0xec71_14a8, 0x9bb3_d4d3,
                   0x7436_5425, 0x704c_5388, 0x78b8_5cd2, 0x6950_4266)
    case 6 => Pick(j, 0x8ad9_7569, 0xbb31_6ff4, 0xd8e1_5ace, 0x1f41_30ba,
                   0x4b70_e213, 0xe313_4741, 0x68a5_0ba4, 0xa4b8_942f)
    case _ => Pick(j, 0x34e4_0089, 0xba6b_076a, 0x7c04_0eed, 0x2bab_1ba2,
                   0x84f5_313c, 0x0138_6241, 0xd1d3_c2fa, 0xab75_85cd)
  }

  /** `1 << j`. */
  function Power(j: nat): bv8
    requires j < 8
  {
    match j
    case 0 => 1 case 1 => 2 case 2 => 4 case 3 => 8 case 4 => 16 case 5 => 32 case 6 => 64 case _ => 128
  }

  lemma FirstEntry(n: bv8)
    ensures Entry(0, n) == Xor(0xff00_0000, Eight(Wide(Xor8(n, 0xff))))
  {
    hide Step, Xor8;
    EightTimes(OPS, Wide(Xor8(n, 0xff)));
    ComplementFolded();
    OpsXor(0xff00_0000, Steps(OPS, 8, Wide(Xor8(n, 0xff))));
  }

  lemma ComplementFolded()
    ensures Not(OPS, OPS.shift(OPS.ones)) == 0xff00_0000 && OPS.low(OPS.ones) == 0xff
  {
  }

  lemma NextEntry(k: nat, n: bv8)
    ensures Entry(k + 1, n) == Eight(Entry(k, n))
  {
    StepsAdd(OPS, 8 * k, 8, TableByte(OPS, n));
    EightTimes(OPS, Entry(k, n));
  }

  lemma FirstRow(j: nat)
    requires j < 8
    ensures Xor(0xff00_0000, Eight(Wide(Xor8(0, 0xff)))) == Corner(0)
    ensures Xor(0xff00_0000, Eight(Wide(Xor8(Power(j), 0xff)))) == Column(0, j)
  {
    if j == 0 {} else if j == 1 {} else if j == 2 {} else if j == 3 {}
    else if j == 4 {} else if j == 5 {} else if j == 6 {} else {}
  }

  lemma NextCorner(k: nat)
    requires k < 7
    ensures Eight(Corner(k)) == Corner(k + 1)
  {
    if k == 0 {} else if k == 1 {} else if k == 2 {} else if k == 3 {}
    else if k == 4 {} else if k == 5 {} else {}
  }

  lemma NextColumn0(j: nat)
    requires j < 8
    ensures Eight(Column(0, j)) == Column(1, j)
  {
  }

  lemma NextColumn1(j: nat)
    requires j < 8
    ensures Eight(Column(1, j)) == Column(2, j)
  {
  }

  lemma NextColumn2(j: nat)
    requires j < 8
    ensures Eight(Column(2, j)) == Column(3, j)
  {
  }

  lemma NextColumn3(j: nat)
    requires j < 8
    ensures Eight(Column(3, j)) == Column(4, j)
  {
  }

  lemma NextColumn4(j: nat)
    requires j < 8
    ensures Eight(Column(4, j)) == Column(5, j)
  {
  }

  lemma NextColumn5(j: nat)
    requires j < 8
    ensures Eight(Column(5, j)) == Column(6, j)
  {
  }

  lemma NextColumn6(j: nat)
    requires j < 8
    ensures Eight(Column(6, j)) == Column(7, j)
  {
  }

  lemma NextColumn(k: nat, j: nat)
    requires k < 7 && j < 8
    ensures Eight(Column(k, j)) == Column(k + 1, j)
  {
    hide Eight, Column;
    if k == 0 { NextColumn0(j); } else if k == 1 { NextColumn1(j); } else if k == 2 { NextColumn2(j); }
    else if k == 3 { NextColumn3(j); } else if k == 4 { NextColumn4(j); } else if k == 5 { NextColumn5(j); }
    else { NextColumn6(j); }
  }

  /** The generator gives what the source has in row 0 and in the rows that are a power of two. */
  lemma {:induction false} BasisIsRight(k: nat, j: nat)
    requires k < 8 && j < 8
    ensures Entry(k, 0) == Corner(k) && Entry(k, Power(j)) == Column(k, j)
  {
    hide Entry, Eight, Corner, Column, Power, Xor, Xor8, Wide;
    if k == 0 {
      FirstEntry(0);
      FirstEntry(Power(j));
      FirstRow(j);
    } else {
      BasisIsRight(k - 1, j);
      NextEntry(k - 1, 0);
      NextEntry(k - 1, Power(j));
      NextCorner(k - 1);
      NextColumn(k - 1, j);
    }
  }

  // ---------------------------------------------------------------- all other rows

  lemma EntryXor(k: nat, m: bv8, n: bv8)
    ensures Entry(k, Xor8(m, n)) == Xor(Xor(Entry(k, m), Entry(k, n)), Entry(k, 0))
    decreases k
  {
    hide Entry, Eight, Xor, Xor8, Wide;
    if k == 0 {
      FirstEntry(m);
      FirstEntry(n);
      FirstEntry(0);
      FirstEntry(Xor8(m, n));
      FirstXor(m, n);
    } else {
      EntryXor(k - 1, m, n);
      NextEntry(k - 1, m);
      NextEntry(k - 1, n);
      NextEntry(k - 1, 0);
      NextEntry(k - 1, Xor8(m, n));
      EightXor(Xor(Entry(k - 1, m), Entry(k - 1, n)), Entry(k - 1, 0));
      EightXor(Entry(k - 1, m), Entry(k - 1, n));
    }
  }

  lemma EightXor(a: bv32, b: bv32)
    ensures Eight(Xor(a, b)) == Xor(Eight(a), Eight(b))
  {
    hide Xor, Step;
    StepLinearHolds();
    StepsXor(OPS, 8, a, b);
    OpsXor(a, b);
    OpsXor(Steps(OPS, 8, a), Steps(OPS, 8, b));
    EightTimes(OPS, a);
    EightTimes(OPS, b);
    EightTimes(OPS, Xor(a, b));
  }

  lemma FirstXor(m: bv8, n: bv8)
    ensures Xor(0xff00_0000, Eight(Wide(Xor8(Xor8(m, n), 0xff))))
         == Xor(Xor(Xor(0xff00_0000, Eight(Wide(Xor8(m, 0xff)))), Xor(0xff00_0000, Eight(Wide(Xor8(n, 0xff))))),
                Xor(0xff00_0000, Eight(Wide(Xor8(0, 0xff)))))
  {
    hide Eight, Xor, Xor8, Wide;
    var a, b, c := Wide(Xor8(m, 0xff)), Wide(Xor8(n, 0xff)), Wide(Xor8(0, 0xff));
    IndexXor(m, n);
    EightXor(Xor(a, b), c);
    EightXor(a, b);
    Spread(0xff00_0000, Eight(a), Eight(b), Eight(c));
  }

  lemma IndexXor(m: bv8, n: bv8)
    ensures Wide(Xor8(Xor8(m, n), 0xff)) == Xor(Xor(Wide(Xor8(m, 0xff)), Wide(Xor8(n, 0xff))), Wide(Xor8(0, 0xff)))
  {
  }

  lemma Spread(z: bv32, a: bv32, b: bv32, c: bv32)
    ensures Xor(z, Xor(Xor(a, b), c)) == Xor(Xor(Xor(z, a), Xor(z, b)), Xor(z, c))
  {
    hide Xor;
    SameOnBoth(z, a, b);
    SwapFront(z, Xor(a, b), c);
  }

  lemma SameOnBoth(z: bv32, a: bv32, b: bv32)
    ensures Xor(Xor(z, a), Xor(z, b)) == Xor(a, b)
  {
  }

  lemma SwapFront(z: bv32, a: bv32, b: bv32)
    ensures Xor(z, Xor(a, b)) == Xor(a, Xor(z, b))
  {
  }

  /** The bits of `n` below bit `j`. */
  function Below(n: bv8, j: nat): bv8
    requires j <= 8
  {
    if j == 0 then 0 else Xor8(Below(n, j - 1), n & Power(j - 1))
  }

  lemma AllBelow(n: bv8)
    ensures Below(n, 8) == n
  {
    assert Below(n, 1) == n & 1;
    assert Below(n, 2) == n & 3;
    assert Below(n, 3) == n & 7;
    assert Below(n, 4) == n & 0xf;
    assert Below(n, 5) == n & 0x1f;
    assert Below(n, 6) == n & 0x3f;
    assert Below(n, 7) == n & 0x7f;
  }

  /** The entry for the bits of `n` below bit `j`, from the literals of table `k`. */
  function Combined(k: nat, n: bv8, j: nat): bv32
    requires k < 8 && j <= 8
  {
    if j == 0 then Corner(k)
    else Xor(Combined(k, n, j - 1), if n & Power(j - 1) != 0 then Xor(Column(k, j - 1), Corner(k)) else 0)
  }

  lemma {:induction false} EntryBelow(k: nat, n: bv8, j: nat)
    requires k < 8 && j <= 8
    ensures Entry(k, Below(n, j)) == Combined(k, n, j)
  {
    hide Entry, Corner, Column, Power, Xor8, Xor;
    BasisIsRight(k, if j == 0 then 0 else j - 1);
    if j > 0 {
      var low, bit := Below(n, j - 1), n & Power(j - 1);
      EntryBelow(k, n, j - 1);
      EntryXor(k, low, bit);
      BitOrNone(n, j - 1);
      Regroup(Entry(k, low), Entry(k, bit), Corner(k));
    }
  }

  lemma BitOrNone(n: bv8, j: nat)
    requires j < 8
    ensures n & Power(j) == 0 || n & Power(j) == Power(j)
    ensures Power(j) != 0
  {
  }

  lemma Regroup(a: bv32, b: bv32, c: bv32)
    ensures Xor(Xor(a, b), c) == Xor(a, Xor(b, c)) && Xor(c, c) == 0
  {
  }

  /** Every entry of the eight tables is fixed by 72 literals of the source, and is what the generator gives. */
  lemma EntryIsSource(k: nat, n: bv8)
    requires k < 8
    ensures Entry(k, n) == Combined(k, n, 8)
  {
    EntryBelow(k, n, 8);
    AllBelow(n);
  }

  // ---------------------------------------------------------------- the check value

  lemma ByteIsEight(c: bv32, b: bv8)
    ensures Byte(OPS, c, b) == Eight(c ^ Wide(b))
  {
    hide Step;
    EightTimes(OPS, c ^ Wide(b));
    OpsXor(c, Wide(b));
  }

  lemma OneByteOf(c: bv32, data: seq<bv8>, rest: seq<bv8>, next: bv32)
    requires data != [] && data[1..] == rest && Eight(c ^ Wide(data[0])) == next
    ensures Register(OPS, c, data) == Register(OPS, next, rest)
  {
    hide Eight;
    ByteIsEight(c, data[0]);
  }

  /** The CRC of the nine digits "123456789". */
  lemma CheckValue()
    ensures Crc(OPS, 0, [0x31, 0x32, 0x33, 0x34, 0x35, 0x36, 0x37, 0x38, 0x39]) == 0xcbf4_3926
  {
    var d: seq<bv8> := [0x31, 0x32, 0x33, 0x34, 0x35, 0x36, 0x37, 0x38, 0x39];
    NotIs(0);
    NotIs(0x340b_c6d9);
    OneByteOf(0xffff_ffff, d[0..], d[1..], 0x7c23_1048);
    OneByteOf(0x7c23_1048, d[1..], d[2..], 0xb0ac_bb32);
    OneByteOf(0xb0ac_bb32, d[2..], d[3..], 0x77b7_9c2d);
    OneByteOf(0x77b7_9c2d, d[3..], d[4..], 0x641c_1f5c);
    OneByteOf(0x641c_1f5c, d[4..], d[5..], 0x340a_c5e3);
    OneByteOf(0x340a_c5e3, d[5..], d[6..], 0xf68d_2c9e);
    OneByteOf(0xf68d_2c9e, d[6..], d[7..], 0xaffc_9660);
    OneByteOf(0xaffc_9660, d[7..], d[8..], 0x651f_2550);
    OneByteOf(0x651f_2550, d[8..], d[9..], 0x340b_c6d9);
    assert d[0..] == d && d[9..] == [];
  }
}
