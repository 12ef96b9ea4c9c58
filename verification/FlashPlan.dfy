/** What flashing an image means, apart from the loops that do it: the geometry of sectors and pages, which sectors
    are dirty, what erasing and programming leave in the chip, which bus cycles are to be sent, and what a probe of
    the sector size can see. */
module FlashPlan {
  import opened Words
  import opened Align
  import opened Nor
  import opened Pages

  /** A write on the bus: where it goes and the bytes it carries, in address order. */
  datatype WriteOp = WriteOp(addr: nat, bytes: seq<bv8>)

  /** The command line and the probed device, fixed once the flash phases start. */
  datatype Setup = Setup(address: nat, image: seq<bv8>, pageSize: nat, size: nat, big: bool, invert: bool,
                         cyclesPerPoll: nat, eraseAddress: nat, deviceSector: nat)
  {
    predicate Ok()
    {
      && Width(size)
      && pageSize > 0 && pageSize % size == 0
      && |image| % pageSize == 0 && address % pageSize == 0
      && cyclesPerPoll >= 1
      && deviceSector > 0
    }

    function Stop(): nat
    {
      address + |image|
    }

    function FirstSector(ss: nat): nat
      requires ss > 0
    {
      (address / ss) * ss
    }

    function LastSector(ss: nat): nat
      requires ss > 0
    {
      ((Stop() + ss - 1) / ss) * ss
    }

    /** Where sector number `k` of the image begins. */
    function Start(k: nat, ss: nat): nat
    {
      address + k * ss
    }

    function Sectors(ss: nat): nat
      requires ss > 0
    {
      (|image| + ss - 1) / ss
    }

    /** The sector size the tool works with fits the image, the chip and the erase bitmap. */
    predicate Geometry(ss: nat, flashBytes: nat, bitmapBytes: nat)
    {
      && ss >= 8 && IsPow2(ss)
      && address % ss == 0
      && LastSector(ss) <= flashBytes
      && Sectors(ss) <= 8 * bitmapBytes
    }

    lemma Range(ss: nat)
      requires ss > 0 && address % ss == 0
      ensures FirstSector(ss) == address == Start(0, ss)
      ensures LastSector(ss) == Start(Sectors(ss), ss)
      ensures Stop() <= LastSector(ss) < Stop() + ss
      ensures |image| > 0 ==> Sectors(ss) > 0
    {
      var x := |image| + ss - 1;
      ModShift(address, x, ss);
      AlignDownMultiple(x, ss);
      assert address == (address / ss) * ss;
      assert (address / ss + x / ss) * ss == (address / ss) * ss + (x / ss) * ss;
      Scale(x / ss, ss);
    }

    lemma StartStep(k: nat, ss: nat)
      ensures Start(k + 1, ss) == Start(k, ss) + ss
    {
    }

    lemma StartApart(j: nat, k: nat, ss: nat)
      requires j < k
      ensures Start(j, ss) + ss <= Start(k, ss)
    {
      assert (k - j - 1) * ss >= 0;
    }

    lemma StartInjective(j: nat, k: nat, ss: nat)
      requires ss > 0 && Start(j, ss) == Start(k, ss)
      ensures j == k
    {
      Scale(j - k, ss);
    }

    /** The division in `detect_decrement` finds the sector an address lies in. */
    lemma SectorIndex(a: nat, k: nat, ss: nat)
      requires ss > 0 && Start(k, ss) <= a < Start(k, ss) + ss
      ensures a >= address && (a - address) / ss == k
    {
      DivMod(a - address, ss, k, a - Start(k, ss));
    }

    /** The size of the erase bitmap that the tool allocates. */
    function BitmapBytes(): nat
      requires pageSize > 0
    {
      |image| / pageSize / 8
    }

    /** The bitmap, with one bit for every page, rounded down to whole bytes, has a bit for every
        sector once there are eight pages and a sector spans at least two of them. */
    lemma BitmapFits(ss: nat)
      requires Ok() && ss >= 2 * pageSize && |image| >= 8 * pageSize
      ensures Sectors(ss) <= 8 * BitmapBytes()
    {
      var pages, n := |image| / pageSize, Sectors(ss);
      assert |image| == pages * pageSize;
      Scale(8 - pages, pageSize);
      assert (8 - pages) * pageSize == 8 * pageSize - pages * pageSize;
      AlignDownMultiple(|image| + ss - 1, ss);
      HalfAsMany(n, ss, pages, pageSize);
    }

    /** The bitmap has a bit for every sector: by the sizes of image and sectors, or by counting. */
    predicate Served(ss: nat)
      requires pageSize > 0 && ss > 0
    {
      (|image| >= 8 * pageSize && ss >= 2 * pageSize) || Sectors(ss) <= 8 * BitmapBytes()
    }

    /** A sector size that is safe to work with on a chip of `flashBytes` bytes. */
    predicate Fits(ss: nat, flashBytes: nat)
      requires pageSize > 0
    {
      ss >= 8 && IsPow2(ss) && Divides(ss) && LastSector(ss) <= flashBytes && Served(ss)
    }

    lemma FitsGeometry(ss: nat, flashBytes: nat)
      requires Ok() && Fits(ss, flashBytes)
      ensures Geometry(ss, flashBytes, BitmapBytes()) && Divides(ss)
    {
      if |image| >= 8 * pageSize && ss >= 2 * pageSize { BitmapFits(ss); }
    }

    lemma HalfAsMany(n: nat, ss: nat, pages: nat, page: nat)
      requires page > 0 && ss >= 2 * page && n * ss < pages * page + ss
      ensures 2 * n <= pages + 1
    {
      if n > 0 {
        var m := n - 1;
        assert n * ss == m * ss + ss;
        MulLe(m, 2 * page, ss);
        assert m * (2 * page) == (2 * m) * page;
        assert (2 * m) * page < pages * page;
        if pages <= 2 * m { MulLe(page, pages, 2 * m); }
      }
    }

    // ------------------------------------------------------------ which sectors need erasing

    /** The bitmap index `detect_decrement` computes for an address. */
    function SectorOf(a: nat, ss: nat): nat
      requires ss > 0
    {
      if a < address then 0 else (a - address) / ss
    }

    /** The sector a scanned word marks, if any. */
    function Hit(cells: Cells, ss: nat, a: nat): set<nat>
      requires ss > 0
    {
      if BlankAt(cells, a, size) then {} else {SectorOf(a, ss)}
    }

    predicate Scannable(c: seq<nat>, ss: nat, flashBytes: nat, bitmapBytes: nat)
    {
      ss > 0 && forall a :: a in c ==> address <= a && a + size <= flashBytes && SectorOf(a, ss) < 8 * bitmapBytes
    }

    /** The sectors one scan cycle will mark when it completes. */
    function Hits(cells: Cells, ss: nat, c: seq<nat>): set<nat>
      requires ss > 0
    {
      if c == [] then {} else Hits(cells, ss, c[..|c| - 1]) + Hit(cells, ss, c[|c| - 1])
    }

    /** The sectors the outstanding scan cycles will mark. */
    function Yield(cells: Cells, ss: nat, cs: seq<seq<nat>>): set<nat>
      requires ss > 0
    {
      if cs == [] then {} else Yield(cells, ss, cs[..|cs| - 1]) + Hits(cells, ss, cs[|cs| - 1])
    }

    lemma SwapLast(a: set<nat>, b: set<nat>, c: set<nat>)
      ensures a + b + c == a + c + b
    {
    }

    lemma {:induction false} YieldRemove(cells: Cells, ss: nat, cs: seq<seq<nat>>, i: nat)
      requires ss > 0 && i < |cs|
      ensures Yield(cells, ss, cs) == Yield(cells, ss, cs[..i] + cs[i + 1..]) + Hits(cells, ss, cs[i])
    {
      var n := |cs| - 1;
      var rest := cs[..i] + cs[i + 1..];
      if i == n {
        assert rest == cs[..n];
      } else {
        YieldRemove(cells, ss, cs[..n], i);
        var left := cs[..n][..i] + cs[..n][i + 1..];
        assert rest[..n - 1] == left && rest[n - 1] == cs[n];
        SwapLast(Yield(cells, ss, left), Hits(cells, ss, cs[i]), Hits(cells, ss, cs[n]));
      }
    }

    /** The sectors among the first `n` with a byte to erase in the window `[offset, offset + len)`. */
    ghost function WindowHits(cells: Cells, ss: nat, n: nat, offset: nat, len: nat): set<nat>
    {
      set k | 0 <= k < n && !BlankAt(cells, Start(k, ss) + offset, len)
    }

    /** Sectors of the image with at least one byte that is not erased: the set the tool must erase. */
    ghost function DirtySectors(cells: Cells, ss: nat): set<nat>
      requires ss > 0
    {
      set k | 0 <= k < Sectors(ss) && !BlankAt(cells, Start(k, ss), ss)
    }

    lemma WindowHitsNone(cells: Cells, ss: nat, offset: nat, len: nat)
      ensures WindowHits(cells, ss, 0, offset, len) == {}
    {
    }

    lemma WindowHitsStep(cells: Cells, ss: nat, n: nat, offset: nat, len: nat)
      ensures WindowHits(cells, ss, n + 1, offset, len)
           == WindowHits(cells, ss, n, offset, len) + if BlankAt(cells, Start(n, ss) + offset, len) then {} else {n}
    {
    }

    /** Adjacent windows partition: scanning them one after the other scans their union. */
    lemma WindowHitsJoin(cells: Cells, ss: nat, n: nat, mid: nat, len: nat)
      ensures WindowHits(cells, ss, n, 0, mid) + WindowHits(cells, ss, n, mid, len)
              == WindowHits(cells, ss, n, 0, mid + len)
    {
      forall k: nat
        ensures BlankAt(cells, Start(k, ss), mid + len)
           <==> BlankAt(cells, Start(k, ss), mid) && BlankAt(cells, Start(k, ss) + mid, len)
      {
        BlankJoin(cells, Start(k, ss), mid, len);
      }
    }

    lemma WordsPerPage()
      requires Ok()
      ensures pageSize / size >= 1 && pageSize == WordsInPage() * size
    {
      Scale(pageSize / size, size);
      assert pageSize == (pageSize / size) * size;
    }

    lemma EightBytes(len: nat)
      requires Ok() && len % 8 == 0
      ensures len % size == 0
    {
      ModTrans(len, size, 8);
    }

    lemma SizeFitsPage()
      requires Ok()
      ensures size <= pageSize
    {
      MultipleMod(0, size);
      MultiplesApart(0, pageSize, size);
    }

    lemma ScanStep(p: nat, stop: nat, i: nat, ss: nat, flashBytes: nat, bitmapBytes: nat)
      requires Ok() && Geometry(ss, flashBytes, bitmapBytes) && i < Sectors(ss)
      requires Start(i, ss) <= p < stop <= Start(i, ss) + ss && (stop - p) % size == 0
      ensures p + size <= stop && (stop - (p + size)) % size == 0
      ensures Scannable([p], ss, flashBytes, bitmapBytes) && SectorOf(p, ss) == i
    {
      MultipleMod(0, size);
      MultiplesApart(0, stop - p, size);
      MultipleMod(1, size);
      ModShift(size, stop - p - size, size);
      SectorIndex(p, i, ss);
      Range(ss);
      if i + 1 < Sectors(ss) { StartApart(i, Sectors(ss), ss); } else { StartStep(i, ss); }
    }

    // ------------------------------------------------------------ what the image asks for

    predicate InImage(b: nat)
    {
      address <= b < Stop()
    }

    /** The word the bus access covering byte `b` starts at. */
    function WordStart(b: nat): nat
      requires Width(size) && InImage(b)
    {
      b - (b - address) % size
    }

    /** The one word `program_flash` refuses to write: it aliases the erase register. */
    predicate Refused(b: nat)
      requires Width(size) && InImage(b)
    {
      WordStart(b) == eraseAddress
    }

    /** What byte `b` of the flash must read after programming. */
    function Goal(b: nat): bv8
      requires Width(size) && InImage(b)
    {
      if Refused(b) then 0xff else Flip(image[b - address], invert)
    }

    /** The file bytes of the word at `a`. */
    function FileBytes(a: nat): (bs: seq<bv8>)
      requires address <= a && a + size <= Stop()
      ensures |bs| == size
    {
      image[a - address..a - address + size]
    }

    predicate WordAt(a: nat)
    {
      size > 0 && address <= a && a + size <= Stop() && (a - address) % size == 0
    }

    lemma NextWord(a: nat)
      requires Ok() && address <= a < Stop() && (a - address) % size == 0
      ensures WordAt(a)
      ensures (a + size - address) % size == 0
      ensures forall b :: a <= b < a + size ==> InImage(b) && WordStart(b) == a
    {
      ModTrans(|image|, size, pageSize);
      MultiplesApart(a - address, |image|, size);
      ModShift(a - address, size, size);
      forall b | a <= b < a + size
        ensures InImage(b) && WordStart(b) == a
      {
        ModShift(a - address, b - a, size);
        DivMod(b - a, size, 0, b - a);
      }
    }

    // ------------------------------------------------------------ erasing

    /** Erase the marked ones among the first `n` sectors. */
    function EraseMarked(cells: Cells, ss: nat, marks: set<nat>, n: nat): (r: Cells)
      ensures |r| == |cells|
      ensures forall b | 0 <= b < |cells| ::
        r[b] == if exists k: nat | k < n && k in marks :: SameSector(b, Start(k, ss), deviceSector) then 0xff
                else cells[b]
    {
      if n == 0 then cells
      else if n - 1 in marks then Erase(EraseMarked(cells, ss, marks, n - 1), deviceSector, Start(n - 1, ss))
      else EraseMarked(cells, ss, marks, n - 1)
    }

    predicate Divides(ss: nat)
    {
      ss > 0 && deviceSector > 0 && address % ss == 0 && deviceSector % ss == 0
    }

    /** Every byte of a sector of the tool is wiped by erasing that sector. */
    lemma SectorWiped(ss: nat, k: nat, b: nat)
      requires Divides(ss) && Start(k, ss) <= b < Start(k, ss) + ss
      ensures SameSector(b, Start(k, ss), deviceSector)
    {
      MultipleMod(k, ss);
      ModShift(address, k * ss, ss);
      SubSector(Start(k, ss), b, ss, deviceSector);
    }

    lemma SectorBounds(ss: nat, b: nat)
      requires ss > 0 && address % ss == 0 && address <= b < LastSector(ss)
      ensures SectorOf(b, ss) < Sectors(ss)
      ensures Start(SectorOf(b, ss), ss) <= b < Start(SectorOf(b, ss), ss) + ss
    {
      Range(ss);
      var k := SectorOf(b, ss);
      assert b - address == k * ss + (b - address) % ss;
      Scale(Sectors(ss) - k, ss);
      assert (Sectors(ss) - k) * ss == Sectors(ss) * ss - k * ss;
    }

    /** Erasing the dirty sectors leaves every sector of the image blank. */
    lemma ErasedIsBlank(cells: Cells, ss: nat, marks: set<nat>, b: nat)
      requires Divides(ss) && DirtySectors(cells, ss) <= marks
      requires address <= b < LastSector(ss) <= |cells|
      ensures EraseMarked(cells, ss, marks, Sectors(ss))[b] == 0xff
    {
      var k := SectorOf(b, ss);
      SectorBounds(ss, b);
      SectorWiped(ss, k, b);
      if k in marks {
        assert SameSector(b, Start(k, ss), deviceSector);
      } else {
        assert BlankAt(cells, Start(k, ss), ss);
      }
    }

    /** With the chip's own sector size, erasing only the dirty sectors equals erasing them all. */
    lemma SelectiveEraseIsFullErase(cells: Cells, all: set<nat>)
      requires Divides(deviceSector) && LastSector(deviceSector) <= |cells|
      requires forall k: nat | k < Sectors(deviceSector) :: k in all
      ensures EraseMarked(cells, deviceSector, DirtySectors(cells, deviceSector), Sectors(deviceSector))
           == EraseMarked(cells, deviceSector, all, Sectors(deviceSector))
    {
      var ss := deviceSector;
      var n := Sectors(ss);
      var dirty := DirtySectors(cells, ss);
      var some, every := EraseMarked(cells, ss, dirty, n), EraseMarked(cells, ss, all, n);
      forall b | 0 <= b < |cells|
        ensures some[b] == every[b]
      {
        if k: nat :| k < n && k in all && SameSector(b, Start(k, ss), ss) {
          assert every[b] == 0xff;
          SectorHolds(k, b);
          if k !in dirty { assert BlankAt(cells, Start(k, ss), ss); }
        }
      }
    }

    lemma SectorHolds(k: nat, b: nat)
      requires Divides(deviceSector) && SameSector(b, Start(k, deviceSector), deviceSector)
      ensures Start(k, deviceSector) <= b < Start(k, deviceSector) + deviceSector
    {
      var x := Start(k, deviceSector);
      MultipleMod(k, deviceSector);
      ModShift(address, k * deviceSector, deviceSector);
      SectorSpan(x, b, deviceSector);
    }

    // ------------------------------------------------------------ programming

    /** The write that programs the word at `a`. */
    function ImageWrite(a: nat): WriteOp
      requires address <= a && a + size <= Stop()
    {
      WriteOp(a, FlipAll(FileBytes(a), invert))
    }

    /** The cells after one bus write. */
    function Land1(cells: Cells, op: WriteOp): (r: Cells)
      ensures |r| == |cells|
    {
      Program(cells, op.addr, op.bytes)
    }

    /** The cells after the write cycle `ops`. */
    function Land(cells: Cells, ops: seq<WriteOp>): (r: Cells)
      ensures |r| == |cells|
    {
      if ops == [] then cells else
      Land1(Land(cells, ops[..|ops| - 1]), ops[|ops| - 1])
    }

    function LandAll(cells: Cells, cs: seq<seq<WriteOp>>): (r: Cells)
      ensures |r| == |cells|
    {
      if cs == [] then cells else Land(LandAll(cells, cs[..|cs| - 1]), cs[|cs| - 1])
    }

    lemma {:induction false} LandProgram(cells: Cells, ops: seq<WriteOp>, a: nat, bs: seq<bv8>)
      ensures Land(Program(cells, a, bs), ops) == Program(Land(cells, ops), a, bs)
    {
      if ops != [] {
        var init, op := ops[..|ops| - 1], ops[|ops| - 1];
        LandProgram(cells, init, a, bs);
        ProgramsCommute(Land(cells, init), a, bs, op.addr, op.bytes);
      }
    }

    lemma {:induction false} LandSwap(cells: Cells, x: seq<WriteOp>, y: seq<WriteOp>)
      ensures Land(Land(cells, x), y) == Land(Land(cells, y), x)
    {
      if x != [] {
        var init, op := x[..|x| - 1], x[|x| - 1];
        LandSwap(cells, init, y);
        LandProgram(Land(cells, init), y, op.addr, op.bytes);
      }
    }

    lemma {:induction false} LandAllSwap(cells: Cells, cs: seq<seq<WriteOp>>, x: seq<WriteOp>)
      ensures LandAll(Land(cells, x), cs) == Land(LandAll(cells, cs), x)
    {
      if cs != [] {
        LandAllSwap(cells, cs[..|cs| - 1], x);
        LandSwap(LandAll(cells, cs[..|cs| - 1]), x, cs[|cs| - 1]);
      }
    }

    /** Any outstanding cycle may land first: the flash ends up the same. */
    lemma {:induction false} LandFirst(cells: Cells, cs: seq<seq<WriteOp>>, i: nat)
      requires i < |cs|
      ensures LandAll(Land(cells, cs[i]), cs[..i] + cs[i + 1..]) == LandAll(cells, cs)
    {
      var n := |cs| - 1;
      var init, rest := cs[..n], cs[..i] + cs[i + 1..];
      if i == n {
        assert rest == init;
        LandAllSwap(cells, init, cs[n]);
      } else {
        LandFirst(cells, init, i);
        assert rest[..n - 1] == init[..i] + init[i + 1..] && rest[n - 1] == cs[n];
        assert LandAll(Land(cells, cs[i]), rest) == Land(LandAll(Land(cells, cs[i]), rest[..n - 1]), cs[n]);
      }
    }

    /** The cells once every word before `stop` has been dealt with. */
    function AndImage(cells: Cells, stop: nat): (r: Cells)
      requires Width(size) && stop <= Stop()
      ensures |r| == |cells|
      ensures forall b | 0 <= b < |cells| :: r[b] == if address <= b < stop then cells[b] & Goal(b) else cells[b]
    {
      seq(|cells|, b requires 0 <= b < |cells| => if address <= b < stop then cells[b] & Goal(b) else cells[b])
    }

    /** The goal for the bytes of one word. */
    lemma WordGoal(a: nat)
      requires Ok() && WordAt(a)
      ensures forall b: nat | a <= b < a + size :: InImage(b) && WordStart(b) == a
      ensures forall b: nat | a <= b < a + size ::
        Goal(b) == if a == eraseAddress then 0xff else FlipAll(FileBytes(a), invert)[b - a]
    {
      NextWord(a);
    }

    lemma AndImageStep(cells: Cells, a: nat, bs: seq<bv8>)
      requires Ok() && WordAt(a) && |bs| == size
      requires forall b: nat | a <= b < a + size :: InImage(b) && Goal(b) == bs[b - a]
      ensures Program(AndImage(cells, a), a, bs) == AndImage(cells, a + size)
    {
      var left, right := Program(AndImage(cells, a), a, bs), AndImage(cells, a + size);
      forall b: nat | b < |cells|
        ensures left[b] == right[b]
      {
        if a <= b < a + size {
          assert left[b] == cells[b] & bs[b - a];
        } else {
          assert left[b] == AndImage(cells, a)[b];
        }
      }
    }

    lemma AndImageWrite(cells: Cells, a: nat)
      requires Ok() && WordAt(a) && a != eraseAddress
      ensures Land1(AndImage(cells, a), ImageWrite(a)) == AndImage(cells, a + size)
    {
      WordGoal(a);
      AndImageStep(cells, a, FlipAll(FileBytes(a), invert));
    }

    lemma AndImageSkip(cells: Cells, a: nat)
      requires Ok() && WordAt(a) && (a == eraseAddress || AllOnes(FileBytes(a)))
      ensures AndImage(cells, a + size) == AndImage(cells, a)
    {
      WordGoal(a);
      forall b: nat | a <= b < a + size && b < |cells|
        ensures AndImage(cells, a + size)[b] == cells[b]
      {
        assert Goal(b) == 0xff;
        AndSwap(cells[b], 0xff, 0xff);
      }
    }

    lemma AndImageNext(cells: Cells, a: nat)
      requires Ok() && WordAt(a)
      ensures a != eraseAddress ==> Land1(AndImage(cells, a), ImageWrite(a)) == AndImage(cells, a + size)
      ensures a == eraseAddress || AllOnes(FileBytes(a)) ==> AndImage(cells, a) == AndImage(cells, a + size)
    {
      if a != eraseAddress { AndImageWrite(cells, a); }
      if a == eraseAddress || AllOnes(FileBytes(a)) { AndImageSkip(cells, a); }
    }

    lemma AndImageNone(cells: Cells)
      requires Width(size)
      ensures AndImage(cells, address) == cells
    {
    }

    /** Programming a blank flash leaves the goal itself. */
    lemma AndImageOnBlank(cells: Cells)
      requires Width(size) && forall b: nat | InImage(b) && b < |cells| :: cells[b] == 0xff
      ensures forall b: nat | InImage(b) && b < |cells| :: AndImage(cells, Stop())[b] == Goal(b)
    {
      forall b: nat | InImage(b) && b < |cells|
        ensures AndImage(cells, Stop())[b] == Goal(b)
      {
        AndSwap(Goal(b), 0xff, 0xff);
      }
    }

    // ------------------------------------------------------------ the cycles programming must issue

    function Words(): nat
      requires size > 0
    {
      |image| / size
    }

    function WordsInPage(): nat
      requires size > 0
    {
      pageSize / size
    }

    function Addr(w: nat): nat
    {
      address + w * size
    }

    lemma AddrStep(w: nat)
      ensures Addr(w + 1) == Addr(w) + size && Addr(0) == address
    {
    }

    lemma AddrIsWord(w: nat)
      requires Ok()
      ensures Addr(Words()) == Stop()
      ensures w < Words() ==> WordAt(Addr(w))
      ensures Addr(w) == Stop() && w <= Words() ==> w == Words()
    {
      ModTrans(|image|, size, pageSize);
      assert |image| == Words() * size;
      MultipleMod(w, size);
      Scale(Words() - w, size);
      assert (Words() - w) * size == Words() * size - w * size;
    }

    /** The bytes of file word number `w`. */
    function FileWord(w: nat): seq<bv8>
      requires Ok() && w < Words()
    {
      AddrIsWord(w);
      FileBytes(Addr(w))
    }

    /** The writes for all words of the image, in order. */
    function Writes(): (ops: seq<WriteOp>)
      requires Ok()
    {
      seq(Words(), w requires 0 <= w < Words() => (AddrIsWord(w); ImageWrite(Addr(w))))
    }

    /** Which words of the image are all ones. */
    function Blanks(): (blank: seq<bool>)
      requires Ok()
    {
      seq(Words(), w requires 0 <= w < Words() => AllOnes(FileWord(w)))
    }

    /** `(offset + size) % page_size == 0` exactly after a whole number of pages. */
    lemma PageEnd(w: nat)
      requires Ok()
      ensures WordsInPage() > 0
      ensures (Addr(w) + size) % pageSize == 0 <==> (w + 1) % WordsInPage() == 0
    {
      WordsPerPage();
      PageEndAt(WordsInPage(), w + 1);
      AddrStep(w);
    }

    lemma PageEndAt(n: nat, k: nat)
      requires Ok() && n > 0 && pageSize == n * size
      ensures Addr(k) % pageSize == 0 <==> k % n == 0
    {
      GroupEnd(address, size, n, k);
    }

    lemma WordsArePages()
      requires Ok()
      ensures WordsInPage() > 0 && Words() % WordsInPage() == 0
    {
      WordsPerPage();
      var n, q := WordsInPage(), |image| / pageSize;
      assert pageSize == n * size && |image| == q * pageSize;
      assert |image| == (q * n) * size by { assert q * (n * size) == (q * n) * size; }
      MultipleMod(q * n, size);
      MultipleMod(q, n);
    }

    // ------------------------------------------------------------ the pipeline

    /** What the chip holds after erasing the sectors in `marks` and programming the image. */
    function Flashed(cells: Cells, ss: nat, marks: set<nat>): (r: Cells)
      requires Ok() && ss > 0
      ensures |r| == |cells|
    {
      AndImage(EraseMarked(cells, ss, marks, Sectors(ss)), Stop())
    }

    /** Whatever the chip held before: the image range holds the goal, the rest of its sectors is erased,
        and every other byte is as it was or wiped by the erase of a marked sector. */
    lemma FlashedExactly(cells: Cells, ss: nat, marks: set<nat>)
      requires Ok() && Divides(ss) && LastSector(ss) <= |cells| && DirtySectors(cells, ss) <= marks
      ensures forall b: nat | InImage(b) :: b < |cells| && Flashed(cells, ss, marks)[b] == Goal(b)
      ensures forall b: nat | Stop() <= b < LastSector(ss) :: Flashed(cells, ss, marks)[b] == 0xff
      ensures forall b: nat | b < |cells| && !InImage(b) ::
        Flashed(cells, ss, marks)[b] == EraseMarked(cells, ss, marks, Sectors(ss))[b]
    {
      Range(ss);
      var erased := EraseMarked(cells, ss, marks, Sectors(ss));
      forall b: nat | address <= b < LastSector(ss)
        ensures erased[b] == 0xff
      {
        ErasedIsBlank(cells, ss, marks, b);
      }
      AndImageOnBlank(erased);
    }

    /** No byte of the image is lost to the erase register: the word there, if any, is blank in the file. */
    ghost predicate NothingRefused()
      requires Ok()
    {
      forall b: nat | InImage(b) && Refused(b) :: image[b - address] == 0xff
    }

    /** The byte at `b` lies in the word at the erase register, which is never programmed. */
    predicate AtRegister(b: nat)
    {
      size > 0 && eraseAddress % size == 0 && eraseAddress <= b < eraseAddress + size
    }

    lemma RefusedIs(b: nat)
      requires Ok() && InImage(b)
      ensures Refused(b) <==> AtRegister(b)
    {
      ModTrans(address, size, pageSize);
      ModShift(address, b - address, size);
      if AtRegister(b) {
        DivMod(b, size, eraseAddress / size, b - eraseAddress);
      }
      if Refused(b) {
        AlignDownMultiple(b, size);
      }
    }

    /** `v` is the byte of the file that belongs to `b`, or has its bits backwards if that is asked for. */
    predicate ShowsFile(b: nat, v: bv8)
    {
      InImage(b) && if invert then Backwards(v, image[b - address]) else v == image[b - address]
    }

    lemma ShowsFileIs(b: nat, v: bv8)
      requires InImage(b)
      ensures ShowsFile(b, v) <==> v == Flip(image[b - address], invert)
    {
      FlipIs(image[b - address], invert);
      OnlyBackwards(v, image[b - address]);
    }

    /** What verification accepts: every byte of the image shows its byte of the file. */
    lemma HoldsIs(cells: Cells)
      requires Ok() && Stop() <= |cells|
      ensures Holds(cells, Stop()) <==> forall b: nat | InImage(b) :: ShowsFile(b, cells[b])
    {
      hide ShowsFile, Flip;
      forall b: nat | InImage(b)
        ensures ShowsFile(b, cells[b]) <==> cells[b] == Flip(image[b - address], invert)
      {
        ShowsFileIs(b, cells[b]);
      }
    }

    lemma GoalIs(b: nat)
      requires Ok() && InImage(b)
      ensures if AtRegister(b) then Goal(b) == 0xff else ShowsFile(b, Goal(b))
    {
      RefusedIs(b);
      FlipIs(image[b - address], invert);
    }

    /** Every byte of the image is in the chip, as in the file or with its bits backwards, except at the erase register,
        where the chip stays erased; or all of it is erased. */
    ghost predicate Delivered(cells: Cells, eraseOnly: bool)
    {
      && Stop() <= |cells|
      && forall b: nat | InImage(b) ::
           if eraseOnly || AtRegister(b) then cells[b] == 0xff else ShowsFile(b, cells[b])
    }

    lemma DeliveredIs(cells: Cells, eraseOnly: bool)
      requires Ok() && Stop() <= |cells|
      requires forall b: nat | InImage(b) :: cells[b] == if eraseOnly then 0xff else Goal(b)
      ensures Delivered(cells, eraseOnly)
    {
      hide ShowsFile, AtRegister, Goal;
      forall b: nat | InImage(b)
        ensures if eraseOnly || AtRegister(b) then cells[b] == 0xff else ShowsFile(b, cells[b])
      {
        GoalIs(b);
      }
    }

    /** The file has a byte at the erase register that is not blank. */
    ghost predicate SomethingLost()
    {
      exists b: nat :: InImage(b) && AtRegister(b) && image[b - address] != 0xff
    }

    lemma NothingRefusedIs()
      requires Ok()
      ensures NothingRefused() <==> !SomethingLost()
    {
      forall b: nat | InImage(b) ensures Refused(b) <==> AtRegister(b) { RefusedIs(b); }
    }

    /** The chip holds the image exactly if nothing was refused. */
    lemma FlashedHolds(cells: Cells, ss: nat, marks: set<nat>)
      requires Ok() && Divides(ss) && LastSector(ss) <= |cells| && DirtySectors(cells, ss) <= marks
      ensures Holds(Flashed(cells, ss, marks), Stop()) <==> NothingRefused()
    {
      FlashedExactly(cells, ss, marks);
      var r := Flashed(cells, ss, marks);
      forall b: nat | InImage(b)
        ensures r[b] == Flip(image[b - address], invert) <==> (Refused(b) ==> image[b - address] == 0xff)
      {
      }
    }

    // ------------------------------------------------------------ verifying

    /** The word at `a` holds what the file asks for. */
    predicate Agrees(cells: Cells, a: nat)
    {
      WordAt(a) && Stop() <= |cells| && cells[a..a + size] == FlipAll(FileBytes(a), invert)
    }

    predicate AllAgree(cells: Cells, c: seq<nat>)
    {
      forall a | a in c :: Agrees(cells, a)
    }

    /** Every byte of the image range before `stop` is the (mirrored) file byte. */
    ghost predicate Holds(cells: Cells, stop: nat)
    {
      forall b: nat | address <= b < stop && b < Stop() && b < |cells| :: cells[b] == Flip(image[b - address], invert)
    }

    lemma HoldsNone(cells: Cells)
      ensures Holds(cells, address)
    {
    }

    lemma HoldsLess(cells: Cells, a: nat)
      requires !Holds(cells, a)
      ensures !Holds(cells, Stop())
    {
    }

    lemma AgreesIsBytes(cells: Cells, a: nat)
      requires WordAt(a) && Stop() <= |cells|
      ensures Agrees(cells, a) <==> forall b: nat | a <= b < a + size :: cells[b] == Flip(image[b - address], invert)
    {
      var got, want := cells[a..a + size], FlipAll(FileBytes(a), invert);
      assert forall i: nat | i < size :: got[i] == cells[a + i] && want[i] == Flip(image[a + i - address], invert);
      if got == want {
        forall b: nat | a <= b < a + size
          ensures cells[b] == Flip(image[b - address], invert)
        {
          assert got[b - a] == want[b - a];
        }
      }
    }

    lemma HoldsStep(cells: Cells, a: nat)
      requires Ok() && WordAt(a) && Stop() <= |cells|
      ensures Holds(cells, a + size) <==> Holds(cells, a) && Agrees(cells, a)
    {
      AgreesIsBytes(cells, a);
    }

    // ------------------------------------------------------------ the programming loop as a whole

    /** What one pass of the programming loop, over the word at `a`, does to the cycles. */
    function FeedWord(s: Stream<WriteOp>, a: nat, op: WriteOp, blank: bool): Stream<WriteOp>
      requires Ok()
    {
      if a == eraseAddress && !(s.maySkip && blank) then s else Feed(s, op, blank, (a + size) % pageSize == 0)
    }

    /** The cycles after the first `w` words of the file. */
    function FeedAll(w: nat): Stream<WriteOp>
      requires Ok() && w <= Words()
    {
      if w == 0 then Stream([], true, []) else FeedWord(FeedAll(w - 1), Addr(w - 1), Writes()[w - 1], Blanks()[w - 1])
    }

    /** Programming the word at `a` with `op`, unless it is left out, takes the flash from `now` to `after`. */
    ghost predicate Transition(a: nat, op: WriteOp, blank: bool, now: Cells, after: Cells)
      requires address <= a && a + size <= Stop()
    {
      && op == ImageWrite(a) && blank == AllOnes(FileBytes(a))
      && after == (if a == eraseAddress || blank then now else Land1(now, op))
      && (a != eraseAddress && blank ==> Land1(now, op) == now)
    }

    lemma TransitionMeans(a: nat, op: WriteOp, blank: bool, now: Cells, after: Cells)
      requires WordAt(a) && Transition(a, op, blank, now, after)
      ensures op == ImageWrite(a) && blank == AllOnes(FileBytes(a))
      ensures after == if a == eraseAddress || blank then now else Land1(now, op)
      ensures a != eraseAddress && blank ==> Land1(now, op) == now
    {
    }

    /** One pass of the loop: the write for word `w`, and the flash it leads to. */
    lemma ProgramStep(cells: Cells, w: nat, now: Cells) returns (op: WriteOp, blank: bool, after: Cells)
      requires Ok() && w < Words() && Addr(w) <= Stop() && now == AndImage(cells, Addr(w))
      ensures WordAt(Addr(w)) && Transition(Addr(w), op, blank, now, after)
      ensures Addr(w + 1) <= Stop() && after == AndImage(cells, Addr(w + 1))
      ensures FeedAll(w + 1) == FeedWord(FeedAll(w), Addr(w), op, blank)
    {
      AddrIsWord(w);
      AddrStep(w);
      op, blank, after := ImageWrite(Addr(w)), AllOnes(FileBytes(Addr(w))), AndImage(cells, Addr(w + 1));
      AndImageNext(cells, Addr(w));
    }

    lemma {:induction false} FeedAllIsStream(w: nat)
      requires Ok() && w <= Words() && !WordAt(eraseAddress)
      ensures WordsInPage() > 0 && FeedAll(w) == FeedMany(Writes(), Blanks(), WordsInPage(), w)
    {
      WordsPerPage();
      if w > 0 {
        FeedAllIsStream(w - 1);
        AddrIsWord(w - 1);
        PageEnd(w - 1);
        assert Addr(w - 1) != eraseAddress;
      }
    }

    /** Programming issues one cycle for each page that holds data, and leaves nothing in the open cycle,
        unless some word aliases the erase register. */
    lemma ProgramPlan()
      requires Ok() && !WordAt(eraseAddress)
      ensures WordsInPage() > 0
      ensures FeedAll(Words()) == Stream([], true, PageCycles(Writes(), Blanks(), WordsInPage(), Words()))
    {
      WordsArePages();
      FeedAllIsStream(Words());
      FeedManyPlanned(Writes(), Blanks(), WordsInPage());
    }

    // ------------------------------------------------------------ probing for the sector size

    function Middle(): nat
    {
      address + |image| / 2
    }

    /** An aligned window of `ss` bytes around the middle of the image lies inside the image. */
    predicate WindowFits(ss: nat)
      requires ss > 0
    {
      address <= AlignDown(Middle(), ss) && AlignDown(Middle(), ss) + ss <= Stop()
    }

    /** The largest window the tool probes: doubled while it fits, up to the cap. */
    function MaxWindow(ss: nat): (m: nat)
      requires ss > 0
      ensures m >= ss
      decreases MAX_SECTOR_SIZE - ss
    {
      if 2 * ss < MAX_SECTOR_SIZE && WindowFits(2 * ss) then MaxWindow(2 * ss) else ss
    }

    /** A non-empty image of whole pages always has room for a window of one page. */
    lemma PageFits()
      requires Ok() && |image| > 0
      ensures WindowFits(pageSize)
    {
      var t := AlignDown(Middle(), pageSize);
      AlignDownMultiple(Middle(), pageSize);
      ModShift(address, |image|, pageSize);
      if t < address { MultiplesApart(t, address, pageSize); }
      MultiplesApart(t, Stop(), pageSize);
    }

    lemma MaxWindowStops(ss: nat)
      requires ss > 0 && (2 * ss >= MAX_SECTOR_SIZE || !WindowFits(2 * ss))
      ensures MaxWindow(ss) == ss
    {
    }

    lemma {:induction false} MaxWindowFits(ss: nat)
      requires ss > 0 && IsPow2(ss) && WindowFits(ss)
      ensures WindowFits(MaxWindow(ss)) && IsPow2(MaxWindow(ss))
      ensures ss < MAX_SECTOR_SIZE ==> MaxWindow(ss) < MAX_SECTOR_SIZE
      ensures 2 * MaxWindow(ss) >= MAX_SECTOR_SIZE || !WindowFits(2 * MaxWindow(ss))
      decreases MAX_SECTOR_SIZE - ss
    {
      if 2 * ss < MAX_SECTOR_SIZE && WindowFits(2 * ss) {
        Pow2Double(ss);
        MaxWindowFits(2 * ss);
      }
    }

    lemma WindowHalves(w: nat)
      requires w > 0 && WindowFits(2 * w)
      ensures WindowFits(w)
    {
      var m := Middle();
      var x, y := AlignDown(m, w), AlignDown(m, 2 * w);
      MultipleMod(2, w);
      AlignDownTwice(m, w, 2 * w);
      AlignDownMultiple(m, w);
      ModShift(y, 2 * w, w);
      MultiplesApart(x, y + 2 * w, w);
    }

    /** A window that fits has windows of every smaller size in it. */
    lemma {:induction false} SmallerFits(v: nat, w: nat)
      requires IsPow2(v) && IsPow2(w) && v <= w && WindowFits(w)
      ensures WindowFits(v)
      decreases w
    {
      if v < w {
        WindowHalves(w / 2);
        Pow2Gap(v, w);
        SmallerFits(v, w / 2);
      }
    }

    /** No window that fits, below the cap, is larger than the one the doubling ends at. */
    lemma MaxWindowIsLargest(ss: nat, w: nat)
      requires ss > 0 && IsPow2(ss) && WindowFits(ss)
      requires ss <= w < MAX_SECTOR_SIZE && IsPow2(w) && WindowFits(w)
      ensures w <= MaxWindow(ss)
    {
      hide WindowFits, MaxWindow, IsPow2;
      var m := MaxWindow(ss);
      MaxWindowFits(ss);
      if m < w {
        Pow2Gap(m, w);
        Pow2Double(m);
        SmallerFits(2 * m, w);
      }
    }

    /** `m` is a window that fits, and no larger one below the cap does. */
    ghost predicate LargestWindow(m: nat)
    {
      && IsPow2(m) && pageSize <= m && WindowFits(m)
      && forall w: nat | IsPow2(w) && w < 0x40_0000 && pageSize <= w && WindowFits(w) :: w <= m
    }

    lemma MaxWindowWins()
      requires Ok() && |image| > 0 && IsPow2(pageSize)
      ensures LargestWindow(MaxWindow(pageSize))
    {
      PageFits();
      MaxWindowFits(pageSize);
      forall w: nat | IsPow2(w) && pageSize <= w < MAX_SECTOR_SIZE && WindowFits(w)
        ensures w <= MaxWindow(pageSize)
      {
        MaxWindowIsLargest(pageSize, w);
      }
    }

    /** The sector size the probing is to report. */
    function Detectable(): nat
      requires pageSize > 0
    {
      if deviceSector < MaxWindow(pageSize) then deviceSector else MaxWindow(pageSize)
    }

    /** The reported size divides the sector size of the chip, so it is safe to work with. */
    lemma DetectableDivides()
      requires Ok() && |image| > 0 && IsPow2(pageSize) && IsPow2(deviceSector) && address % deviceSector == 0
      ensures Divides(Detectable()) && IsPow2(Detectable())
    {
      PageFits();
      MaxWindowFits(pageSize);
      Pow2Divides(Detectable(), deviceSector);
      ModTrans(address, Detectable(), deviceSector);
    }

    /** The tool trusts only these two results of the probing. */
    predicate Believable()
      requires pageSize > 0
    {
      Detectable() == 0x10000 || Detectable() == 0x40000
    }

    lemma DetectableIs()
      requires Ok() && |image| > 0 && IsPow2(pageSize)
      ensures exists w: nat :: LargestWindow(w) && Detectable() == if deviceSector < w then deviceSector else w
    {
      hide LargestWindow;
      MaxWindowWins();
    }

    lemma BelievableIs()
      requires pageSize > 0
      ensures Believable() <==> Detectable() == 0x10000 || Detectable() == 0x40000
    {
    }

    /** The probed window lies inside the image, so with pages of up to 8 KiB the bitmap serves a size that is
        believed. */
    lemma BelievedServed()
      requires Ok() && |image| > 0 && IsPow2(pageSize) && Believable() && pageSize <= 0x2000
      ensures Served(Detectable())
    {
      PageFits();
      MaxWindowFits(pageSize);
    }

    /** A byte in a sector of the chip that also holds a byte of the image. */
    ghost predicate SharesSector(b: nat)
    {
      exists i: nat :: InImage(i) && SameSector(b, i, deviceSector)
    }

    /** Erasing sectors of the image wipes nothing but sectors of the chip that hold some of it. */
    lemma ErasedNearby(cells: Cells, ss: nat, marks: set<nat>, b: nat)
      requires ss > 0 && b < |cells|
      ensures var r := EraseMarked(cells, ss, marks, Sectors(ss));
        r[b] == cells[b] || (r[b] == 0xff && SharesSector(b))
    {
      if k: nat :| k < Sectors(ss) && k in marks && SameSector(b, Start(k, ss), deviceSector) {
        StartInImage(k, ss);
      }
    }

    lemma StartInImage(k: nat, ss: nat)
      requires ss > 0 && k < Sectors(ss)
      ensures InImage(Start(k, ss))
    {
      AlignDownMultiple(|image| + ss - 1, ss);
      MulLe(ss, k + 1, Sectors(ss));
    }

    /** What a run has done to the byte at `b` outside the image: nothing, or it was erased along with some of the
        image. */
    ghost predicate KeptOrErased(was: Cells, cells: Cells, b: nat)
    {
      b < |was| && b < |cells| && (cells[b] == was[b] || (cells[b] == 0xff && SharesSector(b)))
    }

    ghost predicate OutsideKept(was: Cells, cells: Cells)
    {
      |cells| == |was| && forall b: nat | b < |cells| && !InImage(b) :: KeptOrErased(was, cells, b)
    }

    lemma OutsideErased(was: Cells, cells: Cells, ss: nat, marks: set<nat>)
      requires ss > 0 && OutsideKept(was, cells)
      ensures OutsideKept(was, EraseMarked(cells, ss, marks, Sectors(ss)))
    {
      hide SharesSector;
      var r := EraseMarked(cells, ss, marks, Sectors(ss));
      forall b: nat | b < |r| && !InImage(b)
        ensures KeptOrErased(was, r, b)
      {
        ErasedNearby(cells, ss, marks, b);
        assert KeptOrErased(was, cells, b);
      }
    }

    lemma OutsideFlashed(was: Cells, cells: Cells, ss: nat, marks: set<nat>)
      requires Ok() && Divides(ss) && LastSector(ss) <= |cells| && DirtySectors(cells, ss) <= marks
      requires OutsideKept(was, cells)
      ensures OutsideKept(was, Flashed(cells, ss, marks))
    {
      hide SharesSector, EraseMarked, Flashed;
      OutsideErased(was, cells, ss, marks);
      FlashedExactly(cells, ss, marks);
      var e, r := EraseMarked(cells, ss, marks, Sectors(ss)), Flashed(cells, ss, marks);
      forall b: nat | b < |r| && !InImage(b)
        ensures KeptOrErased(was, r, b)
      {
        assert KeptOrErased(was, e, b);
      }
    }

    /** Every byte from the first of the image to the end of its last sector is erased. */
    ghost predicate RangeErased(cells: Cells, ss: nat)
      requires ss > 0
    {
      forall b: nat | address <= b < LastSector(ss) && b < |cells| :: cells[b] == 0xff
    }

    lemma RangeIsErased(cells: Cells, ss: nat, marks: set<nat>)
      requires Divides(ss) && DirtySectors(cells, ss) <= marks && LastSector(ss) <= |cells|
      ensures RangeErased(EraseMarked(cells, ss, marks, Sectors(ss)), ss)
    {
      forall b: nat | address <= b < LastSector(ss) && b < |cells|
        ensures EraseMarked(cells, ss, marks, Sectors(ss))[b] == 0xff
      {
        ErasedIsBlank(cells, ss, marks, b);
      }
    }

    /** Where the probing writes. */
    function ProbeTarget(): nat
      requires pageSize > 0
    {
      AlignDown(Middle(), MaxWindow(pageSize))
    }

    /** No probe goes to the erase register, where a write is a command. */
    predicate ProbesSafe()
      requires pageSize > 0
    {
      forall p | p in Probes(pageSize, MaxWindow(pageSize)) :: ProbeTarget() + p != eraseAddress
    }

    lemma TargetInImage()
      requires Ok() && |image| > 0 && IsPow2(pageSize)
      ensures InImage(ProbeTarget())
    {
      PageFits();
      MaxWindowFits(pageSize);
    }

    /** The probed offsets: powers of two from the page size up. */
    function Probes(p: nat, max: nat): seq<nat>
      requires p > 0
      decreases max - p
    {
      if p < max then [p] + Probes(2 * p, max) else []
    }

    lemma {:induction false} ProbesArePowers(p: nat, max: nat, q: nat)
      requires IsPow2(p) && q in Probes(p, max)
      ensures IsPow2(q) && p <= q < max
      decreases max - p
    {
      Pow2Double(p);
      if q != p { ProbesArePowers(2 * p, max, q); }
    }

    /** Which bytes of the probed window the erase of its first address wipes. */
    lemma ProbeErased(target: nat, max: nat, b: nat)
      requires IsPow2(max) && IsPow2(deviceSector) && target % max == 0 && target <= b < target + max
      ensures SameSector(b, target, deviceSector) <==> b < target + deviceSector
    {
      if deviceSector < max {
        Pow2Divides(deviceSector, max);
        ModTrans(target, deviceSector, max);
        SectorSpan(target, b, deviceSector);
      } else {
        Pow2Divides(max, deviceSector);
        SubSector(target, b, max, deviceSector);
      }
    }
  }

  const MAX_SECTOR_SIZE: nat := 4194304

  type GoodSetup = s: Setup | s.Ok() witness Setup(0, [], 1, 1, true, false, 1, 0, 1)

  // -------------------------------------------------------------- the erase bitmap

  predicate Bit(v: bv8, j: nat)
    requires j < 8
  {
    (v >> j) & 1 == 1
  }

  function SetBit(v: bv8, j: nat, value: bool): bv8
    requires j < 8
  {
    var bit: bv8 := 1 << j;
    (v & !bit) | (if value then bit else 0)
  }

  lemma SetBitEffect(v: bv8, j: nat, value: bool, k: nat)
    requires j < 8 && k < 8
    ensures Bit(SetBit(v, j, value), k) == if k == j then value else Bit(v, k)
  {
    Octet(j);
    Octet(k);
  }

  lemma Octet(j: nat)
    requires j < 8
    ensures j == 0 || j == 1 || j == 2 || j == 3 || j == 4 || j == 5 || j == 6 || j == 7
  {
  }

  /** `bitmask_get`. */
  predicate Marked(bitmap: seq<bv8>, k: nat)
    requires k < 8 * |bitmap|
  {
    Bit(bitmap[k / 8], k % 8)
  }

  /** The sectors whose bit is set. */
  function Marks(bitmap: seq<bv8>): set<nat>
  {
    set k | 0 <= k < 8 * |bitmap| && Marked(bitmap, k)
  }

  lemma MarksAfterSet(bitmap: seq<bv8>, k: nat, value: bool)
    requires k < 8 * |bitmap|
    ensures Marks(bitmap[k / 8 := SetBit(bitmap[k / 8], k % 8, value)])
         == if value then Marks(bitmap) + {k} else Marks(bitmap) - {k}
  {
    var after := bitmap[k / 8 := SetBit(bitmap[k / 8], k % 8, value)];
    forall j: nat | j < 8 * |bitmap|
      ensures Marked(after, j) == if j == k then value else Marked(bitmap, j)
    {
      if j / 8 == k / 8 { SetBitEffect(bitmap[k / 8], k % 8, value, j % 8); }
    }
  }

  /** The first `n` bitmap indices. */
  function Indices(n: nat): (s: set<nat>)
    ensures forall k: nat :: k in s <==> k < n
  {
    if n == 0 then {} else Indices(n - 1) + {n - 1}
  }

  lemma AllBits(j: nat)
    requires j < 8
    ensures Bit(0xff, j)
  {
    Octet(j);
  }

  lemma NoBits(j: nat)
    requires j < 8
    ensures !Bit(0, j)
  {
    Octet(j);
  }
}
