/** Bus words and the bytes they carry.

    The programming tools pack `size` file bytes into one data word by shifting, send it in one of
    two byte orders, and may mirror the bits inside each byte.  This module gives the packing as
    loops over a word register and proves what each byte lane of the result holds. */
module Words {

  /** `data <<= 8; data |= byte`. */
  function Push(w: bv64, b: bv8): bv64
  {
    (w << 8) | (b as bv64)
  }

  function Pop(w: bv64): bv64
  {
    w >> 8
  }

  function LowLane(w: bv64): bv8
  {
    (w & 0xff) as bv8
  }

  /** The word with the given lanes, most significant lane first. */
  function Pack(bs: seq<bv8>): bv64
  {
    if bs == [] then 0 else Push(Pack(bs[..|bs| - 1]), bs[|bs| - 1])
  }

  /** The `n` low lanes of a word, most significant lane first. */
  function Unpack(w: bv64, n: nat): (bs: seq<bv8>)
    ensures |bs| == n
  {
    if n == 0 then [] else Unpack(Pop(w), n - 1) + [LowLane(w)]
  }

  function Reverse(bs: seq<bv8>): (r: seq<bv8>)
    ensures |r| == |bs|
    ensures forall i :: 0 <= i < |bs| ==> r[i] == bs[|bs| - 1 - i]
  {
    if bs == [] then [] else [bs[|bs| - 1]] + Reverse(bs[..|bs| - 1])
  }

  /** Bytes in address order, listed most significant lane first (and back: it is an involution). */
  function Lanes(bs: seq<bv8>, big: bool): (r: seq<bv8>)
    ensures |r| == |bs|
    ensures forall i :: 0 <= i < |bs| ==> r[i] == if big then bs[i] else bs[|bs| - 1 - i]
  {
    if big then bs else Reverse(bs)
  }

  /** The word a bus access of |bs| bytes carries for `bs`, given in address order. */
  function WordOf(bs: seq<bv8>, big: bool): bv64
  {
    Pack(Lanes(bs, big))
  }

  /** The bytes, in address order, that a bus write of `w` with `n` lanes stores. */
  function BytesOf(w: bv64, n: nat, big: bool): (bs: seq<bv8>)
    ensures |bs| == n
  {
    Lanes(Unpack(w, n), big)
  }

  /** The size of a bus access in bytes: 8, 16, 32 or 64 bits. */
  predicate Width(size: nat)
  {
    size > 0 && 8 % size == 0
  }

  lemma WidthCases(size: nat)
    requires Width(size)
    ensures size == 1 || size == 2 || size == 4 || size == 8
  {
    assert 8 == (8 / size) * size;
    if size > 8 { DivMod8(size); }
    assert 8 % 3 != 0 && 8 % 5 != 0 && 8 % 6 != 0 && 8 % 7 != 0;
  }

  lemma WidthSmall(size: nat)
    requires Width(size)
    ensures size <= 8
  {
    if size > 8 { DivMod8(size); }
  }

  lemma DivMod8(size: nat)
    requires size > 8
    ensures 8 % size == 8
  {
  }

  // ---------------------------------------------------------------- packing and unpacking

  function Limit(n: nat): bv64
    requires n < 8
  {
    match n
    case 0 => 1
    case 1 => 0x100
    case 2 => 0x1_0000
    case 3 => 0x100_0000
    case 4 => 0x1_0000_0000
    case 5 => 0x100_0000_0000
    case 6 => 0x1_0000_0000_0000
    case 7 => 0x100_0000_0000_0000
  }

  /** The register holds at most `n` lanes. */
  predicate Fits(w: bv64, n: nat)
  {
    n >= 8 || w < Limit(n)
  }

  lemma FitsPush(w: bv64, b: bv8, n: nat)
    requires Fits(w, n) && n < 8
    ensures Fits(Push(w, b), n + 1)
    ensures Pop(Push(w, b)) == w
    ensures LowLane(Push(w, b)) == b
  {
  }

  lemma {:induction false} PackFits(bs: seq<bv8>)
    requires |bs| <= 8
    ensures Fits(Pack(bs), |bs|)
  {
    if bs != [] {
      PackFits(bs[..|bs| - 1]);
      FitsPush(Pack(bs[..|bs| - 1]), bs[|bs| - 1], |bs| - 1);
    }
  }

  lemma {:induction false} UnpackPack(bs: seq<bv8>)
    requires |bs| <= 8
    ensures Unpack(Pack(bs), |bs|) == bs
  {
    if bs != [] {
      var init := bs[..|bs| - 1];
      PackFits(init);
      FitsPush(Pack(init), bs[|bs| - 1], |init|);
      UnpackPack(init);
    }
  }

  /** A word written over the bus stores exactly the bytes it was built from, in either byte order. */
  lemma BytesOfWordOf(bs: seq<bv8>, big: bool)
    requires |bs| <= 8
    ensures BytesOf(WordOf(bs, big), |bs|, big) == bs
  {
    UnpackPack(Lanes(bs, big));
  }

  lemma WordOfInjective(a: seq<bv8>, b: seq<bv8>, big: bool)
    requires |a| == |b| <= 8
    ensures WordOf(a, big) == WordOf(b, big) <==> a == b
  {
    BytesOfWordOf(a, big);
    BytesOfWordOf(b, big);
  }

  /** The packing loop of the tools: big-endian counts up, little-endian counts down. */
  method Assemble(buf: seq<bv8>, big: bool) returns (data: bv64)
    requires |buf| <= 8
    ensures data == WordOf(buf, big)
  {
    data := 0;
    ghost var lanes := Lanes(buf, big);
    if big {
      var i := 0;
      while i < |buf|
        invariant 0 <= i <= |buf|
        invariant data == Pack(lanes[..i])
      {
        assert lanes[..i + 1][..i] == lanes[..i];
        data := Push(data, buf[i]);
        i := i + 1;
      }
      assert lanes[..i] == lanes;
    } else {
      var i := |buf| - 1;
      while i >= 0
        invariant -1 <= i < |buf|
        invariant data == Pack(lanes[..|buf| - 1 - i])
      {
        var k := |buf| - 1 - i;
        assert lanes[..k + 1][..k] == lanes[..k];
        data := Push(data, buf[i]);
        i := i - 1;
      }
      assert lanes[..|buf|] == lanes;
    }
  }

  /** The lane that bits 8 * k to 8 * k + 7 of a word make up. */
  function LaneAt(w: bv64, k: nat): bv8
    requires k < 8
  {
    match k
    case 0 => (w & 0xff) as bv8
    case 1 => ((w >> 8) & 0xff) as bv8
    case 2 => ((w >> 16) & 0xff) as bv8
    case 3 => ((w >> 24) & 0xff) as bv8
    case 4 => ((w >> 32) & 0xff) as bv8
    case 5 => ((w >> 40) & 0xff) as bv8
    case 6 => ((w >> 48) & 0xff) as bv8
    case _ => (w >> 56) as bv8
  }

  lemma LanePush(w: bv64, b: bv8, k: nat)
    requires k < 8
    ensures LaneAt(Push(w, b), k) == if k == 0 then b else LaneAt(w, k - 1)
  {
    if k == 0 {} else if k == 1 {} else if k == 2 {} else if k == 3 {}
    else if k == 4 {} else if k == 5 {} else if k == 6 {} else {}
  }

  lemma {:induction false} LaneOfPack(bs: seq<bv8>, k: nat)
    requires k < |bs| && k < 8
    ensures LaneAt(Pack(bs), k) == bs[|bs| - 1 - k]
  {
    var init := bs[..|bs| - 1];
    LanePush(Pack(init), bs[|bs| - 1], k);
    if k > 0 { LaneOfPack(init, k - 1); }
  }

  /** In big-endian order the first byte is in the highest lane, in little-endian order in the lowest. */
  lemma ByteOrder(bs: seq<bv8>, big: bool, i: nat)
    requires i < |bs| <= 8
    ensures bs[i] == LaneAt(WordOf(bs, big), if big then |bs| - 1 - i else i)
  {
    LaneOfPack(Lanes(bs, big), if big then |bs| - 1 - i else i);
  }

  // ---------------------------------------------------------------- blank words

  function Blank(n: nat): (bs: seq<bv8>)
    ensures |bs| == n
    ensures forall i :: 0 <= i < n ==> bs[i] == 0xff
  {
    seq(n, i => 0xff)
  }

  /** `ffs`: all ones, shifted down to the width of the access. */
  function Ffs(size: nat): bv64
    requires Width(size)
  {
    var ones: bv64 := 0xffff_ffff_ffff_ffff;
    if size == 8 then ones else if size == 4 then ones >> 32 else if size == 2 then ones >> 48 else ones >> 56
  }

  function Ones(n: nat): bv64
    requires n <= 8
  {
    match n
    case 0 => 0
    case 1 => 0xff
    case 2 => 0xffff
    case 3 => 0xff_ffff
    case 4 => 0xffff_ffff
    case 5 => 0xff_ffff_ffff
    case 6 => 0xffff_ffff_ffff
    case 7 => 0xff_ffff_ffff_ffff
    case 8 => 0xffff_ffff_ffff_ffff
  }

  lemma OnesPush(n: nat)
    requires n < 8
    ensures Push(Ones(n), 0xff) == Ones(n + 1)
  {
  }

  lemma {:induction false} PackOnes(n: nat)
    requires n <= 8
    ensures Pack(Blank(n)) == Ones(n)
  {
    if n > 0 {
      PackOnes(n - 1);
      OnesPush(n - 1);
      assert Blank(n)[..n - 1] == Blank(n - 1);
    }
  }

  /** A word equals `ffs` exactly when every byte under it is erased. */
  lemma WordIsFfs(bs: seq<bv8>, big: bool)
    requires Width(|bs|)
    ensures WordOf(bs, big) == Ffs(|bs|) <==> (forall i :: 0 <= i < |bs| ==> bs[i] == 0xff)
  {
    var blank := Blank(|bs|);
    WidthCases(|bs|);
    PackOnes(|bs|);
    assert Ones(|bs|) == Ffs(|bs|);
    assert Lanes(blank, big) == blank;
    WordOfInjective(bs, blank, big);
  }

  function Zeros(n: nat): (bs: seq<bv8>)
    ensures |bs| == n
    ensures forall i :: 0 <= i < n ==> bs[i] == 0
  {
    seq(n, i => 0)
  }

  lemma {:induction false} PackZeros(n: nat)
    ensures Pack(Zeros(n)) == 0
    ensures Unpack(0, n) == Zeros(n)
  {
    if n > 0 {
      PackZeros(n - 1);
      assert Zeros(n)[..n - 1] == Zeros(n - 1);
      assert Pop(0) == 0 && Push(0, 0) == 0 && LowLane(0) == 0;
    }
  }

  // ---------------------------------------------------------------- bit mirroring

  /** A byte read from its other end. */
  function Mirror(b: bv8): bv8
  {
    ((b & 1) << 7) | ((b & 2) << 5) | ((b & 4) << 3) | ((b & 8) << 1)
    | ((b & 16) >> 1) | ((b & 32) >> 3) | ((b & 64) >> 5) | ((b & 128) >> 7)
  }

  /** `r` has the bits of `b`, bit k in place 7 - k. */
  predicate Backwards(r: bv8, b: bv8)
  {
    && (r >> 7) & 1 == b & 1 && (r >> 6) & 1 == (b >> 1) & 1 && (r >> 5) & 1 == (b >> 2) & 1
    && (r >> 4) & 1 == (b >> 3) & 1 && (r >> 3) & 1 == (b >> 4) & 1 && (r >> 2) & 1 == (b >> 5) & 1
    && (r >> 1) & 1 == (b >> 6) & 1 && r & 1 == b >> 7
  }

  /** Without bit inversion a byte is what the file has, with it the same bits backwards. */
  lemma FlipIs(b: bv8, invert: bool)
    ensures !invert ==> Flip(b, invert) == b
    ensures invert ==> Backwards(Flip(b, invert), b)
  {
  }

  lemma OnlyBackwards(r: bv8, b: bv8)
    ensures Backwards(r, b) <==> r == Flip(b, true)
  {
  }

  /** The byte the flash is to hold for file byte `b`. */
  function Flip(b: bv8, invert: bool): (r: bv8)
    ensures r == 0xff <==> b == 0xff
  {
    if invert then Mirror(b) else b
  }

  function FlipAll(bs: seq<bv8>, invert: bool): (r: seq<bv8>)
    ensures |r| == |bs|
    ensures forall i :: 0 <= i < |bs| ==> r[i] == Flip(bs[i], invert)
  {
    seq(|bs|, i requires 0 <= i < |bs| => Flip(bs[i], invert))
  }

  /** The three mask-and-shift rounds of `flip_bits`, on a whole data word. */
  function FlipBits(x: bv64, invert: bool): bv64
  {
    if !invert then x else
    var m0: bv64 := 0x0f0f_0f0f_0f0f_0f0f;
    var x0 := ((x >> 4) & m0) | ((x & m0) << 4);
    var m1 := m0 ^ (m0 << 2);
    var x1 := ((x0 >> 2) & m1) | ((x0 & m1) << 2);
    var m2 := m1 ^ (m1 << 1);
    ((x1 >> 1) & m2) | ((x1 & m2) << 1)
  }

  lemma FlipPush(w: bv64, b: bv8, invert: bool)
    ensures FlipBits(Push(w, b), invert) == Push(FlipBits(w, invert), Flip(b, invert))
  {
  }

  lemma {:induction false} PackFlip(bs: seq<bv8>, invert: bool)
    ensures FlipBits(Pack(bs), invert) == Pack(FlipAll(bs, invert))
  {
    if bs != [] {
      var init := bs[..|bs| - 1];
      FlipPush(Pack(init), bs[|bs| - 1], invert);
      PackFlip(init, invert);
      assert FlipAll(bs, invert)[..|bs| - 1] == FlipAll(init, invert);
    }
  }

  /** `flip_bits` on the word mirrors every byte on its own, whatever the byte order. */
  lemma FlipWord(bs: seq<bv8>, big: bool, invert: bool)
    ensures FlipBits(WordOf(bs, big), invert) == WordOf(FlipAll(bs, invert), big)
  {
    PackFlip(Lanes(bs, big), invert);
    assert FlipAll(Lanes(bs, big), invert) == Lanes(FlipAll(bs, invert), big);
  }

  lemma BytesOfFlip(bs: seq<bv8>, big: bool, invert: bool)
    requires |bs| <= 8
    ensures BytesOf(FlipBits(WordOf(bs, big), invert), |bs|, big) == FlipAll(bs, invert)
  {
    FlipWord(bs, big, invert);
    BytesOfWordOf(FlipAll(bs, invert), big);
  }

  lemma WordAgrees(got: seq<bv8>, bs: seq<bv8>, big: bool, invert: bool)
    requires |got| == |bs| <= 8
    ensures WordOf(got, big) == FlipBits(WordOf(bs, big), invert) <==> got == FlipAll(bs, invert)
  {
    FlipWord(bs, big, invert);
    WordOfInjective(got, FlipAll(bs, invert), big);
  }

  predicate AllOnes(bs: seq<bv8>)
  {
    forall i :: 0 <= i < |bs| ==> bs[i] == 0xff
  }

  lemma WordOfZeros(n: nat, big: bool)
    ensures WordOf(Zeros(n), big) == 0
  {
    PackZeros(n);
    assert Lanes(Zeros(n), big) == Zeros(n);
  }

  lemma WordIsZero(bs: seq<bv8>, big: bool)
    requires Width(|bs|)
    ensures WordOf(bs, big) == 0 <==> AllZeros(bs)
  {
    WidthSmall(|bs|);
    var zeros := Zeros(|bs|);
    WordOfZeros(|bs|, big);
    WordOfInjective(bs, zeros, big);
    assert AllZeros(bs) <==> bs == zeros;
  }

  predicate AllZeros(bs: seq<bv8>)
  {
    forall i :: 0 <= i < |bs| ==> bs[i] == 0
  }

  // ---------------------------------------------------------------- what the tools do with a word

  /** The data word 0, as a bus write carries it. */
  method EncodeZero(size: nat, big: bool) returns (bytes: seq<bv8>)
    requires Width(size)
    ensures |bytes| == size && AllZeros(bytes)
  {
    PackZeros(size);
    bytes := BytesOf(0, size, big);
  }

  /** A word read from the bus, compared with 0. */
  method ReadsZero(got: seq<bv8>, big: bool) returns (zero: bool)
    requires Width(|got|)
    ensures zero <==> AllZeros(got)
  {
    WordIsZero(got, big);
    zero := WordOf(got, big) == 0;
  }

  /** A word read from the bus, compared with `ffs`. */
  method ReadsFfs(got: seq<bv8>, big: bool) returns (same: bool)
    requires Width(|got|)
    ensures same <==> AllOnes(got)
  {
    WordIsFfs(got, big);
    same := WordOf(got, big) == Ffs(|got|);
  }

  /** The comparison with `ffs` that lets programming leave a word out. */
  method IsFfs(buf: seq<bv8>, big: bool) returns (same: bool)
    requires Width(|buf|)
    ensures same <==> AllOnes(buf)
  {
    WidthSmall(|buf|);
    var data := Assemble(buf, big);
    WordIsFfs(buf, big);
    same := data == Ffs(|buf|);
  }

  /** From file bytes to the bytes a bus write carries: assemble, mirror, send. */
  method Encode(buf: seq<bv8>, big: bool, invert: bool) returns (bytes: seq<bv8>)
    requires Width(|buf|)
    ensures bytes == FlipAll(buf, invert)
  {
    WidthSmall(|buf|);
    var data := Assemble(buf, big);
    data := FlipBits(data, invert);
    BytesOfFlip(buf, big, invert);
    bytes := BytesOf(data, |buf|, big);
  }

  /** A word read back, compared with the mirrored file word. */
  method Compare(got: seq<bv8>, buf: seq<bv8>, big: bool, invert: bool) returns (same: bool)
    requires Width(|buf|) && |got| == |buf|
    ensures same <==> got == FlipAll(buf, invert)
  {
    WidthSmall(|buf|);
    var data := Assemble(buf, big);
    data := FlipBits(data, invert);
    WordAgrees(got, buf, big, invert);
    same := WordOf(got, big) == data;
  }

  /** Mirroring twice gives the byte back, and bit k goes to bit 7 - k. */
  lemma MirrorInvolution(b: bv8)
    ensures Mirror(Mirror(b)) == b
    ensures b & 1 == Mirror(b) >> 7 && (b >> 1) & 1 == (Mirror(b) >> 6) & 1
    ensures (b >> 2) & 1 == (Mirror(b) >> 5) & 1 && (b >> 3) & 1 == (Mirror(b) >> 4) & 1
  {
  }
}
