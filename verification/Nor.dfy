/** A NOR flash chip behind the bus: writing can only clear bits, erasing sets a whole sector to ones. */
module Nor {
  import opened Words
  import opened Align

  type Cells = seq<bv8>

  /** A bus write ANDs the bytes it carries into the cells. */
  function Program(cells: Cells, addr: nat, bs: seq<bv8>): (r: Cells)
    ensures |r| == |cells|
    ensures forall b :: 0 <= b < |cells| ==>
      r[b] == if addr <= b < addr + |bs| then cells[b] & bs[b - addr] else cells[b]
  {
    seq(|cells|, b requires 0 <= b < |cells| =>
      if addr <= b < addr + |bs| then cells[b] & bs[b - addr] else cells[b])
  }

  predicate SameSector(a: nat, b: nat, sector: nat)
  {
    sector > 0 && a / sector == b / sector
  }

  /** The erase command clears the sector that holds `addr`. */
  function Erase(cells: Cells, sector: nat, addr: nat): (r: Cells)
    ensures |r| == |cells|
    ensures forall b :: 0 <= b < |cells| ==> r[b] == if SameSector(b, addr, sector) then 0xff else cells[b]
  {
    seq(|cells|, b requires 0 <= b < |cells| => if SameSector(b, addr, sector) then 0xff else cells[b])
  }

  predicate BlankAt(cells: Cells, addr: nat, size: nat)
  {
    forall b :: addr <= b < addr + size && b < |cells| ==> cells[b] == 0xff
  }

  lemma BlankJoin(cells: Cells, addr: nat, m: nat, n: nat)
    ensures BlankAt(cells, addr, m + n) <==> BlankAt(cells, addr, m) && BlankAt(cells, addr + m, n)
  {
  }

  lemma BlankBytes(cells: Cells, addr: nat, size: nat)
    requires addr + size <= |cells|
    ensures BlankAt(cells, addr, size) <==> AllOnes(cells[addr..addr + size])
  {
    var bs := cells[addr..addr + size];
    forall b | addr <= b < addr + size && AllOnes(bs)
      ensures cells[b] == 0xff
    {
      assert cells[b] == bs[b - addr];
    }
  }

  /** Programming only ever clears bits, so two writes may land in either order. */
  lemma ProgramsCommute(cells: Cells, a: nat, x: seq<bv8>, b: nat, y: seq<bv8>)
    ensures Program(Program(cells, a, x), b, y) == Program(Program(cells, b, y), a, x)
  {
    var left, right := Program(Program(cells, a, x), b, y), Program(Program(cells, b, y), a, x);
    forall i | 0 <= i < |cells|
      ensures left[i] == right[i]
    {
      if a <= i < a + |x| && b <= i < b + |y| { AndSwap(cells[i], x[i - a], y[i - b]); }
    }
  }

  lemma AndSwap(p: bv8, q: bv8, r: bv8)
    ensures (p & q) & r == (p & r) & q
    ensures p & 0xff == p && 0xff & p == p
  {
  }

  predicate ZeroAt(cells: Cells, addr: nat, size: nat)
  {
    forall b :: addr <= b < addr + size && b < |cells| ==> cells[b] == 0
  }

  lemma AndZero(p: bv8)
    ensures p & 0 == 0 && 0 & p == 0
  {
  }

  lemma ProgramZeros(cells: Cells, addr: nat, bs: seq<bv8>)
    requires AllZeros(bs)
    ensures forall b | 0 <= b < |cells| ::
              Program(cells, addr, bs)[b] == if addr <= b < addr + |bs| then 0 else cells[b]
  {
    forall b | 0 <= b < |cells|
      ensures Program(cells, addr, bs)[b] == if addr <= b < addr + |bs| then 0 else cells[b]
    {
      AndZero(cells[b]);
    }
  }

  /** The byte at `b` lies in the word at `target + p` for some `p` in `ops`. */
  ghost predicate InProbe(b: nat, target: nat, ops: seq<nat>, size: nat)
  {
    exists p :: p in ops && target + p <= b < target + p + size
  }

  /** The words at `target + p`, for every `p` in `ops`, are zero, they lie in `[target, target + max)`, and no other
      byte has changed. */
  ghost predicate Stamped(was: Cells, cells: Cells, target: nat, max: nat, ops: seq<nat>, size: nat)
  {
    && |cells| == |was|
    && (forall p | p in ops :: ZeroAt(cells, target + p, size))
    && (forall b | 0 <= b < |cells| && !(target <= b < target + max) :: cells[b] == was[b])
    && (forall b | 0 <= b < |cells| && !InProbe(b, target, ops, size) :: cells[b] == was[b])
  }

  lemma NothingStamped(cells: Cells, target: nat, max: nat, size: nat)
    ensures Stamped(cells, cells, target, max, [], size)
  {
  }

  lemma StampOne(was: Cells, cells: Cells, target: nat, max: nat, ops: seq<nat>, p: nat, bs: seq<bv8>)
    requires Stamped(was, cells, target, max, ops, |bs|) && AllZeros(bs) && p + |bs| <= max
    ensures Stamped(was, Program(cells, target + p, bs), target, max, ops + [p], |bs|)
  {
    var r := Program(cells, target + p, bs);
    ProgramZeros(cells, target + p, bs);
    forall b | 0 <= b < |r| && !InProbe(b, target, ops + [p], |bs|)
      ensures r[b] == was[b]
    {
      assert p in ops + [p] && forall q :: q in ops ==> q in ops + [p];
    }
  }

  /** A sector of the tool lies inside one sector of the chip when its size divides the chip's. */
  lemma SubSector(x: nat, b: nat, small: nat, sector: nat)
    requires small > 0 && sector > 0 && sector % small == 0 && x % small == 0 && x <= b < x + small
    ensures SameSector(b, x, sector)
  {
    var q := x / sector;
    AlignDownMultiple(x, sector);
    var base := AlignDown(x, sector);
    ModTrans(base, small, sector);
    assert base + sector == (q + 1) * sector;
    MultipleMod(q + 1, sector);
    ModTrans(base + sector, small, sector);
    MultiplesApart(x, base + sector, small);
    DivMod(b, sector, q, b - base);
  }

  /** From an aligned address, its sector reaches just as far as the sector size. */
  lemma SectorSpan(x: nat, b: nat, sector: nat)
    requires sector > 0 && x % sector == 0
    ensures SameSector(b, x, sector) <==> x <= b < x + sector
  {
    assert x == (x / sector) * sector;
    assert b == (b / sector) * sector + b % sector;
    if x <= b < x + sector { DivMod(b, sector, x / sector, b - x); }
  }
}
