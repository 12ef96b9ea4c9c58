/** What every CRC register has in common, whatever its width and bit order.

    A register is a vector over the two-element field.  Nothing here looks inside it: the CRC modules
    show that their bit-vector operations obey `Laws`, and get the theorems of this module for them. */
module CrcTheory {

  /** The operations of one CRC on registers `T` and bytes `B`. */
  datatype Ops<!T, !B> = Ops(
    xor: (T, T) -> T, zero: T, ones: T,     // `ones`: what the finished register is complemented with
    step: T -> T,                           // one shift, with the polynomial folded in
    shift: T -> T, low: T -> B,             // the register without its next byte, and that byte
    wide: B -> T, bxor: (B, B) -> B,        // a byte as a register
    halve: T -> T, odd: T -> bool,          // the register without its next bit, and that bit
    inject: bool -> T,                      // a bit where it enters the register
    high: T -> bool, width: nat)            // the bit the polynomial always sets; the number of bits

  /** `c` with `n` bits shifted out. */
  function Halved<T, B>(o: Ops<T, B>, n: nat, c: T): T
  {
    if n == 0 then c else Halved(o, n - 1, o.halve(c))
  }

  function Steps<T, B>(o: Ops<T, B>, n: nat, c: T): T
  {
    if n == 0 then c else Steps(o, n - 1, o.step(c))
  }

  // The laws, one predicate for each.  Mentioning one of these at given registers asks for that instance;
  // left to itself the solver would rewrite exclusive ors forever.

  predicate AssocAt<T(==), B>(o: Ops<T, B>, a: T, b: T, c: T)
  {
    o.xor(o.xor(a, b), c) == o.xor(a, o.xor(b, c))
  }

  predicate CommAt<T(==), B>(o: Ops<T, B>, a: T, b: T)
  {
    o.xor(a, b) == o.xor(b, a)
  }

  predicate ZeroAt<T(==), B>(o: Ops<T, B>, a: T)
  {
    o.xor(a, o.zero) == a && o.xor(a, a) == o.zero
  }

  predicate StepAt<T(==), B>(o: Ops<T, B>, a: T, b: T)
  {
    o.step(o.xor(a, b)) == o.xor(o.step(a), o.step(b))
  }

  predicate ShiftAt<T(==), B(==)>(o: Ops<T, B>, a: T, b: T)
  {
    o.shift(o.xor(a, b)) == o.xor(o.shift(a), o.shift(b)) && o.low(o.xor(a, b)) == o.bxor(o.low(a), o.low(b))
  }

  predicate WideAt<T(==), B(==)>(o: Ops<T, B>, m: B, n: B)
  {
    o.low(o.wide(m)) == m && o.shift(o.wide(m)) == o.zero && o.wide(o.bxor(m, n)) == o.xor(o.wide(m), o.wide(n))
  }

  /** A byte step shifts the register and folds in what its low byte stands for. */
  predicate SplitAt<T(==), B>(o: Ops<T, B>, a: T)
  {
    Steps(o, 8, a) == o.xor(o.shift(a), Steps(o, 8, o.wide(o.low(a))))
  }

  predicate InjectiveAt<T(==), B>(o: Ops<T, B>, a: T, b: T)
  {
    o.step(a) == o.step(b) ==> a == b
  }

  /** A step halves the register; a bit that is shifted out sets the high bit. */
  predicate HalveAt<T(==), B>(o: Ops<T, B>, a: T)
  {
    && o.step(o.xor(a, o.inject(o.odd(a)))) == o.halve(a)
    && (!o.high(o.step(a)) ==> !o.odd(a) && o.step(a) == o.halve(a))
  }

  predicate HighAt<T(==), B>(o: Ops<T, B>, a: T)
  {
    o.width >= 1 && (Halved(o, o.width - 1, a) == o.zero ==> !o.high(a))
  }

  predicate InjectAt<T(==), B>(o: Ops<T, B>, a: T, x: bool)
  {
    o.halve(o.xor(a, o.inject(x))) == o.halve(a) && o.odd(o.xor(a, o.inject(x))) == (o.odd(a) != x)
  }

  predicate EightAt<T(==), B>(o: Ops<T, B>, m: B)
  {
    Halved(o, 8, o.wide(m)) == o.zero
  }

  ghost predicate Group<T(!new), B>(o: Ops<T, B>)
  {
    && (forall a, b, c :: AssocAt(o, a, b, c))
    && (forall a, b :: CommAt(o, a, b))
    && (forall a :: ZeroAt(o, a))
  }

  ghost predicate StepLinear<T(!new), B>(o: Ops<T, B>)
  {
    forall a, b :: StepAt(o, a, b)
  }

  ghost predicate Linear<T(!new), B(!new)>(o: Ops<T, B>)
  {
    && StepLinear(o)
    && (forall a, b :: ShiftAt(o, a, b))
    && (forall m, n :: WideAt(o, m, n))
    && (forall a :: SplitAt(o, a))
  }

  ghost predicate Bits<T(!new), B(!new)>(o: Ops<T, B>)
  {
    && o.width >= 1
    && (forall a, b :: InjectiveAt(o, a, b))
    && (forall a :: HalveAt(o, a))
    && (forall a :: HighAt(o, a))
    && (forall a, x :: InjectAt(o, a, x))
    && (forall m :: EightAt(o, m))
    && !o.odd(o.zero) && o.halve(o.zero) == o.zero
  }

  ghost predicate Laws<T(!new), B(!new)>(o: Ops<T, B>)
  {
    Group(o) && Linear(o) && Bits(o)
  }

  // ---------------------------------------------------------------- the CRC and its tables

  /** The register after one byte. */
  function Byte<T, B>(o: Ops<T, B>, c: T, b: B): T
  {
    Steps(o, 8, o.xor(c, o.wide(b)))
  }

  function Register<T, B>(o: Ops<T, B>, c: T, data: seq<B>): T
  {
    if data == [] then c else Register(o, Byte(o, c, data[0]), data[1..])
  }

  function Not<T, B>(o: Ops<T, B>, c: T): T
  {
    o.xor(c, o.ones)
  }

  /** The CRC of `data`, appended to a message whose CRC is `crc`. */
  function Crc<T, B>(o: Ops<T, B>, crc: T, data: seq<B>): T
  {
    Not(o, Register(o, Not(o, crc), data))
  }

  /** The byte table, with the complement folded in. */
  function TableByte<T, B>(o: Ops<T, B>, n: B): T
  {
    o.xor(Not(o, o.shift(o.ones)), Steps(o, 8, o.wide(o.bxor(n, o.low(o.ones)))))
  }

  /** Table `k` is the byte table moved on by `k` zero bytes of the plain register. */
  function TableWord<T, B>(o: Ops<T, B>, k: nat, n: B): T
  {
    Steps(o, 8 * k, TableByte(o, n))
  }

  function ByteLookup<T, B>(o: Ops<T, B>, crc: T, b: B): T
  {
    o.xor(o.shift(crc), TableByte(o, o.bxor(o.low(crc), b)))
  }

  /** The slicing form: one lookup for every byte, in ever nearer tables, and what is left of the register. */
  function Sliced<T, B>(o: Ops<T, B>, crc: T, b: seq<B>): T
  {
    if b == [] then crc else o.xor(TableWord(o, |b| - 1, o.bxor(o.low(crc), b[0])), Sliced(o, o.shift(crc), b[1..]))
  }

  // ---------------------------------------------------------------- group facts

  lemma Assoc<T(!new), B>(o: Ops<T, B>, a: T, b: T, c: T)
    requires Group(o)
    ensures o.xor(o.xor(a, b), c) == o.xor(a, o.xor(b, c))
  {
    assert AssocAt(o, a, b, c);
  }

  lemma Comm<T(!new), B>(o: Ops<T, B>, a: T, b: T)
    requires Group(o)
    ensures o.xor(a, b) == o.xor(b, a)
  {
    assert CommAt(o, a, b);
  }

  /** `(a ^ b) ^ c == (a ^ c) ^ b`. */
  lemma SwapLast<T(!new), B>(o: Ops<T, B>, a: T, b: T, c: T)
    requires Group(o)
    ensures o.xor(o.xor(a, b), c) == o.xor(o.xor(a, c), b)
  {
    Assoc(o, a, b, c);
    Comm(o, b, c);
    Assoc(o, a, c, b);
  }

  lemma Cancel<T(!new), B>(o: Ops<T, B>, a: T, b: T)
    requires Group(o)
    ensures o.xor(o.xor(a, b), b) == a
  {
    Assoc(o, a, b, b);
    assert ZeroAt(o, b) && ZeroAt(o, a);
  }

  lemma Pairs<T(!new), B>(o: Ops<T, B>, a: T, b: T, c: T, d: T)
    requires Group(o)
    ensures o.xor(o.xor(a, b), o.xor(c, d)) == o.xor(o.xor(a, c), o.xor(b, d))
  {
    Assoc(o, o.xor(a, b), c, d);
    SwapLast(o, a, b, c);
    Assoc(o, o.xor(a, c), b, d);
  }

  lemma {:induction false} StepsXor<T(!new), B>(o: Ops<T, B>, n: nat, a: T, b: T)
    requires StepLinear(o)
    ensures Steps(o, n, o.xor(a, b)) == o.xor(Steps(o, n, a), Steps(o, n, b))
  {
    if n > 0 {
      assert StepAt(o, a, b);
      StepsXor(o, n - 1, o.step(a), o.step(b));
    }
  }

  lemma {:induction false} StepsAdd<T, B>(o: Ops<T, B>, m: nat, n: nat, c: T)
    ensures Steps(o, m + n, c) == Steps(o, n, Steps(o, m, c))
  {
    if m > 0 { StepsAdd(o, m - 1, n, o.step(c)); }
  }

  lemma EightTimes<T, B>(o: Ops<T, B>, c: T)
    ensures Steps(o, 8, c) == o.step(o.step(o.step(o.step(o.step(o.step(o.step(o.step(c))))))))
  {
    var a := o.step(o.step(c));
    var b := o.step(o.step(a));
    var d := o.step(o.step(b));
    assert Steps(o, 8, c) == Steps(o, 7, o.step(c)) == Steps(o, 6, a);
    assert Steps(o, 6, a) == Steps(o, 5, o.step(a)) == Steps(o, 4, b);
    assert Steps(o, 4, b) == Steps(o, 3, o.step(b)) == Steps(o, 2, d);
    assert Steps(o, 2, d) == Steps(o, 1, o.step(d)) == Steps(o, 0, o.step(o.step(d)));
  }

  lemma HalvedSeven<T, B>(o: Ops<T, B>, c: T)
    ensures Halved(o, 7, c) == o.halve(o.halve(o.halve(o.halve(o.halve(o.halve(o.halve(c)))))))
  {
    var a := o.halve(o.halve(c));
    var b := o.halve(o.halve(a));
    var d := o.halve(o.halve(b));
    assert Halved(o, 7, c) == Halved(o, 6, o.halve(c)) == Halved(o, 5, a);
    assert Halved(o, 5, a) == Halved(o, 4, o.halve(a)) == Halved(o, 3, b);
    assert Halved(o, 3, b) == Halved(o, 2, o.halve(b)) == Halved(o, 1, d) == Halved(o, 0, o.halve(d));
  }

  lemma HalvedEight<T, B>(o: Ops<T, B>, c: T)
    ensures Halved(o, 8, c) == o.halve(o.halve(o.halve(o.halve(o.halve(o.halve(o.halve(o.halve(c))))))))
  {
    HalvedSeven(o, o.halve(c));
  }

  lemma {:induction false} HalvedAdd<T, B>(o: Ops<T, B>, m: nat, n: nat, c: T)
    ensures Halved(o, m + n, c) == Halved(o, n, Halved(o, m, c))
  {
    if m > 0 { HalvedAdd(o, m - 1, n, o.halve(c)); }
  }

  lemma NotNot<T(!new), B>(o: Ops<T, B>, c: T)
    requires Group(o)
    ensures Not(o, Not(o, c)) == c
  {
    Cancel(o, c, o.ones);
  }

  // ---------------------------------------------------------------- one byte at a time

  lemma {:induction false} RegisterAppend<T, B>(o: Ops<T, B>, c: T, a: seq<B>, b: seq<B>)
    ensures Register(o, c, a + b) == Register(o, Register(o, c, a), b)
  {
    if a == [] {
      assert a + b == b;
    } else {
      assert (a + b)[1..] == a[1..] + b;
      RegisterAppend(o, Byte(o, c, a[0]), a[1..], b);
    }
  }

  /** A CRC may be computed in pieces. */
  lemma CrcAppend<T(!new), B>(o: Ops<T, B>, crc: T, a: seq<B>, b: seq<B>)
    requires Group(o)
    ensures Crc(o, Crc(o, crc, a), b) == Crc(o, crc, a + b)
    ensures Crc(o, crc, []) == crc
  {
    NotNot(o, Register(o, Not(o, crc), a));
    NotNot(o, crc);
    RegisterAppend(o, Not(o, crc), a, b);
  }

  /** The register a byte leaves behind: the rest of the old one, and the table entry of the low byte. */
  lemma ByteSplits<T(!new), B(!new)>(o: Ops<T, B>, c: T, b: B)
    requires Group(o) && Linear(o)
    ensures Byte(o, c, b) == o.xor(o.shift(c), Steps(o, 8, o.wide(o.bxor(o.low(c), b))))
  {
    var x := o.xor(c, o.wide(b));
    assert SplitAt(o, x) && ShiftAt(o, c, o.wide(b)) && WideAt(o, b, b) && ZeroAt(o, o.shift(c));
  }

  /** One lookup is one byte of the bitwise form, with both complements. */
  lemma ByteLookupIsByte<T(!new), B(!new)>(o: Ops<T, B>, crc: T, b: B)
    requires Group(o) && Linear(o)
    ensures ByteLookup(o, crc, b) == Not(o, Byte(o, Not(o, crc), b))
  {
    var s, t := o.shift(crc), o.shift(o.ones);
    ByteSplits(o, Not(o, crc), b);
    assert ShiftAt(o, crc, o.ones);
    SameIndex(o, o.low(crc), o.low(o.ones), b);
    var entry := Steps(o, 8, o.wide(o.bxor(o.bxor(o.low(crc), b), o.low(o.ones))));
    SwapLast(o, o.xor(s, t), entry, o.ones);
    Assoc(o, s, t, o.ones);
    Assoc(o, s, Not(o, t), entry);
  }

  lemma SameIndex<T(!new), B(!new)>(o: Ops<T, B>, p: B, q: B, b: B)
    requires Group(o) && Linear(o)
    ensures o.wide(o.bxor(o.bxor(p, q), b)) == o.wide(o.bxor(o.bxor(p, b), q))
  {
    assert WideAt(o, o.bxor(p, q), b) && WideAt(o, p, q) && WideAt(o, o.bxor(p, b), q) && WideAt(o, p, b);
    SwapLast(o, o.wide(p), o.wide(q), o.wide(b));
  }

  lemma CrcFront<T(!new), B(!new)>(o: Ops<T, B>, crc: T, b: seq<B>)
    requires Group(o) && Linear(o) && b != []
    ensures Crc(o, crc, b) == Crc(o, ByteLookup(o, crc, b[0]), b[1..])
  {
    ByteLookupIsByte(o, crc, b[0]);
    NotNot(o, Byte(o, Not(o, crc), b[0]));
  }

  lemma RegisterOneMore<T, B>(o: Ops<T, B>, c: T, a: seq<B>, b: B)
    ensures Register(o, c, a + [b]) == Byte(o, Register(o, c, a), b)
  {
    RegisterAppend(o, c, a, [b]);
  }

  lemma CrcOneMore<T(!new), B(!new)>(o: Ops<T, B>, crc: T, a: seq<B>, b: B)
    requires Group(o) && Linear(o)
    ensures Crc(o, crc, a + [b]) == ByteLookup(o, Crc(o, crc, a), b)
  {
    CrcAppend(o, crc, a, [b]);
    CrcFront(o, Crc(o, crc, a), [b]);
    CrcAppend(o, ByteLookup(o, Crc(o, crc, a), b), [], []);
  }

  // ---------------------------------------------------------------- many bytes at a time

  lemma {:induction false} RegisterLinear<T(!new), B(!new)>(o: Ops<T, B>, c: T, d: T, b: seq<B>)
    requires Group(o) && Linear(o)
    ensures Register(o, o.xor(c, d), b) == o.xor(Register(o, c, b), Steps(o, 8 * |b|, d))
  {
    if b != [] {
      SwapLast(o, c, d, o.wide(b[0]));
      StepsXor(o, 8, o.xor(c, o.wide(b[0])), d);
      RegisterLinear(o, Byte(o, c, b[0]), Steps(o, 8, d), b[1..]);
      StepsAdd(o, 8, 8 * (|b| - 1), d);
    }
  }

  /** What enters the starting CRC comes out moved on by the length of the message, complements or not. */
  lemma CrcLinear<T(!new), B(!new)>(o: Ops<T, B>, crc: T, d: T, b: seq<B>)
    requires Group(o) && Linear(o)
    ensures Crc(o, o.xor(crc, d), b) == o.xor(Crc(o, crc, b), Steps(o, 8 * |b|, d))
  {
    SwapLast(o, crc, d, o.ones);
    RegisterLinear(o, Not(o, crc), d, b);
    SwapLast(o, Register(o, Not(o, crc), b), Steps(o, 8 * |b|, d), o.ones);
  }

  /** The slicing form computes the CRC, for a slice of any length. */
  lemma {:induction false} SlicedIsCrc<T(!new), B(!new)>(o: Ops<T, B>, crc: T, b: seq<B>)
    requires Group(o) && Linear(o)
    ensures Sliced(o, crc, b) == Crc(o, crc, b)
  {
    if b == [] {
      NotNot(o, crc);
    } else {
      var entry := TableByte(o, o.bxor(o.low(crc), b[0]));
      CrcFront(o, crc, b);
      CrcLinear(o, o.shift(crc), entry, b[1..]);
      SlicedIsCrc(o, o.shift(crc), b[1..]);
      Comm(o, Sliced(o, o.shift(crc), b[1..]), Steps(o, 8 * (|b| - 1), entry));
    }
  }

  /** `c` with `n` bytes shifted out. */
  function Shifted<T, B>(o: Ops<T, B>, n: nat, c: T): T
  {
    if n == 0 then c else Shifted(o, n - 1, o.shift(c))
  }

  /** The byte that selects the entry of lookup number `i` of a slice. */
  function SliceIndex<T, B>(o: Ops<T, B>, crc: T, b: seq<B>, i: nat): B
    requires i < |b|
  {
    o.bxor(o.low(Shifted(o, i, crc)), b[i])
  }

  /** The exclusive or of the first `n` terms, from left to right. */
  function XorAll<T, B>(o: Ops<T, B>, t: seq<T>, n: nat): T
    requires 1 <= n <= |t|
  {
    if n == 1 then t[0] else o.xor(XorAll(o, t, n - 1), t[n - 1])
  }

  /** From the left or from the right, the exclusive or is the same. */
  lemma {:induction false} SlicedFromLeft<T(!new), B(!new)>(o: Ops<T, B>, crc: T, b: seq<B>, t: seq<T>, n: nat)
    requires Group(o) && |t| == |b| && 1 <= n <= |b|
    requires forall i | 0 <= i < |b| :: t[i] == TableWord(o, |b| - 1 - i, SliceIndex(o, crc, b, i))
    ensures Sliced(o, crc, b) == o.xor(XorAll(o, t, n), Sliced(o, Shifted(o, n, crc), b[n..]))
  {
    if n == 1 {
      assert Shifted(o, 1, crc) == Shifted(o, 0, o.shift(crc));
    } else {
      SlicedFromLeft(o, crc, b, t, n - 1);
      var rest := b[n - 1..];
      ShiftedLast(o, n - 1, crc);
      assert rest[1..] == b[n..];
      Assoc(o, XorAll(o, t, n - 1), t[n - 1], Sliced(o, Shifted(o, n, crc), b[n..]));
    }
  }

  lemma {:induction false} ShiftedLast<T, B>(o: Ops<T, B>, n: nat, c: T)
    ensures Shifted(o, n + 1, c) == o.shift(Shifted(o, n, c))
  {
    if n > 0 { ShiftedLast(o, n - 1, o.shift(c)); }
  }

  /** One lookup for every byte is the CRC of the bytes, once nothing of the old register is left. */
  lemma LookupsAreCrc<T(!new), B(!new)>(o: Ops<T, B>, crc: T, b: seq<B>, t: seq<T>)
    requires Group(o) && Linear(o) && |t| == |b| && |b| >= 1 && Shifted(o, |b|, crc) == o.zero
    requires forall i | 0 <= i < |b| :: t[i] == TableWord(o, |b| - 1 - i, SliceIndex(o, crc, b, i))
    ensures XorAll(o, t, |t|) == Crc(o, crc, b)
  {
    SlicedFromLeft(o, crc, b, t, |b|);
    assert b[|b|..] == [];
    assert ZeroAt(o, XorAll(o, t, |t|));
    SlicedIsCrc(o, crc, b);
  }

  function Lookup<T, B>(o: Ops<T, B>, crc: T, b: seq<B>, i: nat): T
    requires i < |b|
  {
    TableWord(o, |b| - 1 - i, SliceIndex(o, crc, b, i))
  }

  /** Eight lookups, as the word loops write them. */
  lemma EightLookups<T(!new), B(!new)>(o: Ops<T, B>, crc: T, b: seq<B>)
    requires Group(o) && Linear(o) && |b| == 8 && Shifted(o, 8, crc) == o.zero
    ensures o.xor(o.xor(o.xor(o.xor(o.xor(o.xor(o.xor(
              Lookup(o, crc, b, 0), Lookup(o, crc, b, 1)), Lookup(o, crc, b, 2)), Lookup(o, crc, b, 3)),
              Lookup(o, crc, b, 4)), Lookup(o, crc, b, 5)), Lookup(o, crc, b, 6)), Lookup(o, crc, b, 7))
              == Crc(o, crc, b)
  {
    var t := [Lookup(o, crc, b, 0), Lookup(o, crc, b, 1), Lookup(o, crc, b, 2), Lookup(o, crc, b, 3),
              Lookup(o, crc, b, 4), Lookup(o, crc, b, 5), Lookup(o, crc, b, 6), Lookup(o, crc, b, 7)];
    LookupsAreCrc(o, crc, b, t);
    assert XorAll(o, t, 8) == o.xor(XorAll(o, t, 7), t[7]) && XorAll(o, t, 7) == o.xor(XorAll(o, t, 6), t[6]);
    assert XorAll(o, t, 6) == o.xor(XorAll(o, t, 5), t[5]) && XorAll(o, t, 5) == o.xor(XorAll(o, t, 4), t[4]);
    assert XorAll(o, t, 4) == o.xor(XorAll(o, t, 3), t[3]) && XorAll(o, t, 3) == o.xor(XorAll(o, t, 2), t[2]);
  }

  // ---------------------------------------------------------------- one bit at a time

  function FoldBits<T, B>(o: Ops<T, B>, c: T, bits: seq<bool>): T
  {
    if bits == [] then c else FoldBits(o, o.step(o.xor(c, o.inject(bits[0]))), bits[1..])
  }

  /** The next `n` bits of a register, in the order they enter. */
  function TakeBits<T, B>(o: Ops<T, B>, v: T, n: nat): (bits: seq<bool>)
    ensures |bits| == n
  {
    if n == 0 then [] else [o.odd(v)] + TakeBits(o, o.halve(v), n - 1)
  }

  /** Adding a whole group of bits and shifting it out is the same as adding and shifting bit by bit. */
  lemma {:induction false} StepsAreBits<T(!new), B(!new)>(o: Ops<T, B>, c: T, v: T, n: nat)
    requires Laws(o) && Halved(o, n, v) == o.zero
    ensures Steps(o, n, o.xor(c, v)) == FoldBits(o, c, TakeBits(o, v, n))
  {
    if n == 0 {
      assert ZeroAt(o, c);
    } else {
      var first := o.inject(o.odd(v));
      var rest := o.xor(v, first);
      assert HalveAt(o, v);
      Cancel(o, v, first);
      Comm(o, rest, first);
      Assoc(o, c, first, rest);
      assert StepAt(o, o.xor(c, first), rest);
      StepsAreBits(o, o.step(o.xor(c, first)), o.halve(v), n - 1);
    }
  }

  lemma {:induction false} FoldAppend<T, B>(o: Ops<T, B>, c: T, a: seq<bool>, b: seq<bool>)
    ensures FoldBits(o, c, a + b) == FoldBits(o, FoldBits(o, c, a), b)
  {
    if a == [] {
      assert a + b == b;
    } else {
      assert (a + b)[1..] == a[1..] + b;
      FoldAppend(o, o.step(o.xor(c, o.inject(a[0]))), a[1..], b);
    }
  }

  lemma {:induction false} TakeAdd<T, B>(o: Ops<T, B>, v: T, m: nat, n: nat)
    ensures TakeBits(o, v, m + n) == TakeBits(o, v, m) + TakeBits(o, Halved(o, m, v), n)
  {
    if m > 0 { TakeAdd(o, o.halve(v), m - 1, n); }
  }

  /** All bits of a message, in the order they enter the register. */
  function MessageBits<T, B>(o: Ops<T, B>, data: seq<B>): (bits: seq<bool>)
    ensures |bits| == 8 * |data|
  {
    if data == [] then [] else TakeBits(o, o.wide(data[0]), 8) + MessageBits(o, data[1..])
  }

  lemma {:induction false} RegisterIsBits<T(!new), B(!new)>(o: Ops<T, B>, c: T, data: seq<B>)
    requires Laws(o)
    ensures Register(o, c, data) == FoldBits(o, c, MessageBits(o, data))
  {
    if data != [] {
      assert EightAt(o, data[0]);
      StepsAreBits(o, c, o.wide(data[0]), 8);
      RegisterIsBits(o, Byte(o, c, data[0]), data[1..]);
      FoldAppend(o, c, TakeBits(o, o.wide(data[0]), 8), MessageBits(o, data[1..]));
    }
  }

  // ---------------------------------------------------------------- error detection

  /** The difference of two registers that meet after `n` more bits only has `n` bits. */
  lemma {:induction false} DifferenceIsShort<T(!new), B(!new)>(o: Ops<T, B>, s: T, t: T, u: seq<bool>, v: seq<bool>)
    requires Laws(o) && |u| == |v| <= o.width && FoldBits(o, s, u) == FoldBits(o, t, v)
    ensures Halved(o, |u|, o.xor(s, t)) == o.zero
  {
    if u == [] {
      assert ZeroAt(o, s);
    } else {
      var p, q := o.xor(s, o.inject(u[0])), o.xor(t, o.inject(v[0]));
      DifferenceIsShort(o, o.step(p), o.step(q), u[1..], v[1..]);
      OneBitBack(o, s, t, u[0], v[0], |u| - 1);
    }
  }

  /** One bit earlier, the difference has one bit more; that bit is the difference of the bits fed in. */
  lemma OneBitBack<T(!new), B(!new)>(o: Ops<T, B>, s: T, t: T, x: bool, y: bool, n: nat)
    requires Laws(o) && n < o.width
    requires Halved(o, n, o.xor(o.step(o.xor(s, o.inject(x))), o.step(o.xor(t, o.inject(y))))) == o.zero
    ensures Halved(o, n + 1, o.xor(s, t)) == o.zero
    ensures o.odd(o.xor(s, t)) == (x != y)
  {
    var p, q := o.xor(s, o.inject(x)), o.xor(t, o.inject(y));
    var d := o.xor(p, q);
    assert StepAt(o, p, q);
    ShortIsShift(o, d, n);
    Pairs(o, s, o.inject(x), t, o.inject(y));
    SameHalf(o, o.xor(s, t), x, y);
  }

  lemma ShortIsShift<T(!new), B(!new)>(o: Ops<T, B>, d: T, n: nat)
    requires Laws(o) && n < o.width && Halved(o, n, o.step(d)) == o.zero
    ensures !o.odd(d) && Halved(o, n, o.halve(d)) == o.zero
  {
    assert HalveAt(o, d) && HighAt(o, o.step(d));
    HalvedMore(o, n, o.width - 1, o.step(d));
  }

  lemma SameHalf<T(!new), B(!new)>(o: Ops<T, B>, d: T, x: bool, y: bool)
    requires Laws(o)
    ensures o.halve(o.xor(d, o.xor(o.inject(x), o.inject(y)))) == o.halve(d)
    ensures o.odd(o.xor(d, o.xor(o.inject(x), o.inject(y)))) == (o.odd(d) != (x != y))
  {
    Assoc(o, d, o.inject(x), o.inject(y));
    assert InjectAt(o, o.xor(d, o.inject(x)), y) && InjectAt(o, d, x);
  }

  lemma {:induction false} HalvedMore<T(!new), B(!new)>(o: Ops<T, B>, m: nat, n: nat, c: T)
    requires Bits(o) && Halved(o, m, c) == o.zero && m <= n
    ensures Halved(o, n, c) == o.zero
  {
    if m > 0 {
      HalvedMore(o, m - 1, n - 1, o.halve(c));
    } else {
      HalvedZero(o, n);
    }
  }

  lemma {:induction false} HalvedZero<T(!new), B(!new)>(o: Ops<T, B>, n: nat)
    requires Bits(o)
    ensures Halved(o, n, o.zero) == o.zero
  {
    if n > 0 { HalvedZero(o, n - 1); }
  }

  /** Up to `width` bits leave a different register for every different group of bits. */
  lemma {:induction false} ShortInjective<T(!new), B(!new)>(o: Ops<T, B>, s: T, u: seq<bool>, v: seq<bool>)
    requires Laws(o) && |u| == |v| <= o.width && FoldBits(o, s, u) == FoldBits(o, s, v)
    ensures u == v
  {
    if u != [] {
      var p, q := o.xor(s, o.inject(u[0])), o.xor(s, o.inject(v[0]));
      DifferenceIsShort(o, o.step(p), o.step(q), u[1..], v[1..]);
      OneBitBack(o, s, s, u[0], v[0], |u| - 1);
      assert ZeroAt(o, s);
      ShortInjective(o, o.step(p), u[1..], v[1..]);
    }
  }

  /** What differs stays different under equal bits. */
  lemma {:induction false} FoldInjective<T(!new), B(!new)>(o: Ops<T, B>, s: T, t: T, u: seq<bool>)
    requires Laws(o) && FoldBits(o, s, u) == FoldBits(o, t, u)
    ensures s == t
  {
    if u != [] {
      var i := o.inject(u[0]);
      FoldInjective(o, o.step(o.xor(s, i)), o.step(o.xor(t, i)), u[1..]);
      assert InjectiveAt(o, o.xor(s, i), o.xor(t, i));
      Cancel(o, s, i);
      Cancel(o, t, i);
    }
  }

  /** The bits of two messages agree outside the window of `o.width` bits that starts at bit `i`. */
  ghost predicate AgreeOutside(a: seq<bool>, b: seq<bool>, i: nat, width: nat)
  {
    |a| == |b| && forall k | 0 <= k < |a| && !(i <= k < i + width) :: a[k] == b[k]
  }

  lemma Sandwich<T(!new), B(!new)>(o: Ops<T, B>, c: T, before: seq<bool>, u: seq<bool>, v: seq<bool>, after: seq<bool>)
    requires Laws(o) && |u| == |v| <= o.width
    requires FoldBits(o, c, before + (u + after)) == FoldBits(o, c, before + (v + after))
    ensures u == v
  {
    var s := FoldBits(o, c, before);
    FoldAppend(o, c, before, u + after);
    FoldAppend(o, c, before, v + after);
    FoldAppend(o, s, u, after);
    FoldAppend(o, s, v, after);
    FoldInjective(o, FoldBits(o, s, u), FoldBits(o, s, v), after);
    ShortInjective(o, s, u, v);
  }

  lemma WindowSeen<T(!new), B(!new)>(o: Ops<T, B>, c: T, a: seq<bool>, b: seq<bool>, i: nat)
    requires Laws(o) && AgreeOutside(a, b, i, o.width) && FoldBits(o, c, a) == FoldBits(o, c, b)
    ensures a == b
  {
    if i < |a| {
      var j := if i + o.width < |a| then i + o.width else |a|;
      assert a == a[..i] + (a[i..j] + a[j..]) && b == b[..i] + (b[i..j] + b[j..]);
      assert a[..i] == b[..i] && a[j..] == b[j..];
      Sandwich(o, c, a[..i], a[i..j], b[i..j], a[j..]);
    }
  }

  /** Eight bits tell bytes apart, so the bits of a message tell messages apart. */
  lemma {:induction false} MessageBitsInjective<T(!new), B(!new)>(o: Ops<T, B>, a: seq<B>, b: seq<B>)
    requires Laws(o) && |a| == |b| && MessageBits(o, a) == MessageBits(o, b)
    ensures a == b
  {
    if a != [] {
      var p, q := o.wide(a[0]), o.wide(b[0]);
      var u, v := TakeBits(o, p, 8), TakeBits(o, q, 8);
      assert MessageBits(o, a)[..8] == u && MessageBits(o, b)[..8] == v;
      assert MessageBits(o, a)[8..] == MessageBits(o, a[1..]) && MessageBits(o, b)[8..] == MessageBits(o, b[1..]);
      assert EightAt(o, a[0]) && EightAt(o, b[0]) && ZeroAt(o, p) && ZeroAt(o, q);
      assert WideAt(o, a[0], a[0]) && WideAt(o, b[0], b[0]);
      StepsAreBits(o, o.zero, p, 8);
      StepsAreBits(o, o.zero, q, 8);
      Comm(o, o.zero, p);
      Comm(o, o.zero, q);
      StepsInjective(o, 8, p, q);
      MessageBitsInjective(o, a[1..], b[1..]);
    }
  }

  lemma {:induction false} StepsInjective<T(!new), B(!new)>(o: Ops<T, B>, n: nat, a: T, b: T)
    requires Bits(o) && Steps(o, n, a) == Steps(o, n, b)
    ensures a == b
  {
    if n > 0 {
      assert InjectiveAt(o, a, b);
      StepsInjective(o, n - 1, o.step(a), o.step(b));
    }
  }

  /** Two different messages whose bits differ only inside one window as wide as the register have different CRCs. */
  lemma BurstDetected<T(!new), B(!new)>(o: Ops<T, B>, crc: T, a: seq<B>, b: seq<B>, i: nat)
    requires Laws(o) && |a| == |b| && AgreeOutside(MessageBits(o, a), MessageBits(o, b), i, o.width)
    requires a != b
    ensures Crc(o, crc, a) != Crc(o, crc, b)
  {
    var c := Not(o, crc);
    RegisterIsBits(o, c, a);
    RegisterIsBits(o, c, b);
    if Crc(o, crc, a) == Crc(o, crc, b) {
      NotNot(o, Register(o, c, a));
      NotNot(o, Register(o, c, b));
      WindowSeen(o, c, MessageBits(o, a), MessageBits(o, b), i);
      MessageBitsInjective(o, a, b);
    }
  }
}
