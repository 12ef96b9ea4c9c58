/** The flash programmer: its loops, its counter of cycles on the wire and its callbacks.

    Cycles are closed without waiting and complete later, in any order, whenever the program runs the socket.  Ghost
    parameters carry along what the outstanding cycles and the open one are going to achieve together. */
module EbFlash {
  import opened Words
  import opened Align
  import opened Nor
  import opened FlashPlan
  import opened Pages

  /** The sectors to mark once `[first, stop)` of sector `i` has been read. */
  function Found(cells: Cells, first: nat, stop: nat, i: nat, before: set<nat>): set<nat>
    requires first <= stop
  {
    if BlankAt(cells, first, stop - first) then before else before + {i}
  }

  lemma WindowGrows(cells: Cells, first: nat, position: nat, size: nat, i: nat, before: set<nat>)
    requires first <= position
    ensures var was := Found(cells, first, position, i, before);
      Found(cells, first, position + size, i, before) == if BlankAt(cells, position, size) then was else was + {i}
  {
    BlankJoin(cells, first, position - first, size);
  }

  lemma DoubleWindow(x: nat, size: nat)
    requires IsPow2(size)
    ensures IsPow2(2 * size) && AlignDown(AlignDown(x, size), 2 * size) == AlignDown(x, 2 * size)
  {
    Pow2Double(size);
    MultipleMod(2, size);
    AlignDownTwice(x, size, 2 * size);
  }

  class Programmer {
    const setup: GoodSetup
    var cells: Cells
    var sectorSize: nat
    const bitmap: array<bv8>

    var inflight: nat
    var scans: seq<seq<nat>>
    var posts: seq<seq<WriteOp>>
    var filePos: nat
    var lastOffset: int
    ghost var peak: nat
    ghost var issued: seq<seq<WriteOp>>

    /** Start of `main`: an all-zero bitmap with one bit for every page, and the file at its beginning. */
    constructor (setup: GoodSetup, cells: Cells, sectorSize: nat)
      ensures this.setup == setup && this.cells == cells && this.sectorSize == sectorSize
      ensures fresh(bitmap) && bitmap.Length == |setup.image| / setup.pageSize / 8
      ensures Fresh()
    {
      this.setup, this.cells, this.sectorSize := setup, cells, sectorSize;
      inflight, scans, posts := 0, [], [];
      filePos, lastOffset, peak, issued := 0, -1, 0, [];
      bitmap := new bv8[|setup.image| / setup.pageSize / 8](i => 0);
      new;
      forall k: nat | k < 8 * bitmap.Length
        ensures k !in Marked()
      {
        assert bitmap[..][k / 8] == 0;
        NoBits(k % 8);
      }
    }

    /** The phases run one after the other, each starting with nothing on the wire. */
    ghost predicate Idle()
      reads this`sectorSize, this`inflight, this`scans, this`posts, this`cells
    {
      && setup.Geometry(sectorSize, |cells|, bitmap.Length)
      && inflight == 0 && scans == [] && posts == []
    }

    ghost function Marked(): set<nat>
      reads bitmap
    {
      Marks(bitmap[..])
    }

    // ---------------------------------------------------------------- scanning

    method BitmaskSet(k: nat, value: bool)
      requires k < 8 * bitmap.Length
      modifies bitmap
      ensures Marked() == if value then old(Marked()) + {k} else old(Marked()) - {k}
    {
      ghost var before := bitmap[..];
      bitmap[k / 8] := SetBit(bitmap[k / 8], k % 8, value);
      assert bitmap[..] == before[k / 8 := SetBit(before[k / 8], k % 8, value)];
      MarksAfterSet(before, k, value);
    }

    function BitmaskGet(k: nat): (r: bool)
      requires k < 8 * bitmap.Length
      reads bitmap
      ensures r <==> k in Marked()
    {
      Bit(bitmap[k / 8], k % 8)
    }

    /** The callback of one scan cycle: a word that is not `ffs` marks its sector for erasure. */
    method DetectDecrement(c: seq<nat>)
      requires sectorSize > 0 && inflight > 0
      requires setup.Scannable(c, sectorSize, |cells|, bitmap.Length)
      modifies this`inflight, bitmap
      ensures inflight == old(inflight) - 1
      ensures Marked() == old(Marked()) + setup.Hits(cells, sectorSize, c)
    {
      inflight := inflight - 1;
      var i := 0;
      while i < |c|
        invariant 0 <= i <= |c|
        invariant inflight == old(inflight) - 1
        invariant Marked() == old(Marked()) + setup.Hits(cells, sectorSize, c[..i])
      {
        var a := c[i];
        assert a in c;
        assert c[..i + 1][..i] == c[..i];
        BlankBytes(cells, a, setup.size);
        var erased := ReadsFfs(cells[a..a + setup.size], setup.big);
        if !erased {
          BitmaskSet((a - setup.address) / sectorSize, true);
        }
        i := i + 1;
      }
      assert c[..i] == c;
    }

    /** Once the cycles on the wire and the open cycle `open` have completed, the bitmap shows `sectors`. */
    ghost predicate WillMark(open: seq<nat>, sectors: set<nat>)
      reads this`sectorSize, this`inflight, this`scans, this`cells, bitmap
    {
      && sectorSize > 0
      && inflight == |scans|
      && (forall c | c in scans :: setup.Scannable(c, sectorSize, |cells|, bitmap.Length))
      && setup.Scannable(open, sectorSize, |cells|, bitmap.Length)
      && Marked() + setup.Yield(cells, sectorSize, scans) + setup.Hits(cells, sectorSize, open) == sectors
    }

    /** `eb_socket_run`: at least one outstanding scan cycle completes, any of them, in any order. */
    method RunScan(ghost open: seq<nat>, ghost sectors: set<nat>)
      requires WillMark(open, sectors) && scans != []
      modifies this`inflight, this`scans, bitmap
      ensures WillMark(open, sectors) && inflight < old(inflight)
    {
      var n :| 1 <= n <= |scans|;
      while n > 0
        invariant 0 <= n <= |scans| <= old(|scans|)
        invariant n == 0 ==> |scans| < old(|scans|)
        invariant WillMark(open, sectors)
      {
        var i :| 0 <= i < |scans|;
        var c := scans[i];
        setup.YieldRemove(cells, sectorSize, scans, i);
        DetectDecrement(c);
        scans := scans[..i] + scans[i + 1..];
        n := n - 1;
      }
    }

    /** `while (inflight >= limit) eb_socket_run(...)`. */
    method PollScan(limit: nat, ghost open: seq<nat>, ghost sectors: set<nat>)
      requires WillMark(open, sectors) && limit >= 1
      modifies this`inflight, this`scans, bitmap
      ensures WillMark(open, sectors) && inflight < limit
    {
      while inflight >= limit
        invariant WillMark(open, sectors)
      {
        RunScan(open, sectors);
      }
    }

    method CloseScan(c: seq<nat>, ghost sectors: set<nat>)
      requires WillMark(c, sectors)
      modifies this`inflight, this`scans, this`peak
      ensures WillMark([], sectors) && inflight == old(inflight) + 1
      ensures peak == if inflight > old(peak) then inflight else old(peak)
    {
      inflight := inflight + 1;
      if inflight > peak { peak := inflight; }
      scans := scans + [c];
      assert scans[..|scans| - 1] == old(scans);
    }

    lemma ReadOne(c: seq<nat>, a: nat, sectors: set<nat>)
      requires WillMark(c, sectors) && setup.Scannable([a], sectorSize, |cells|, bitmap.Length)
      ensures WillMark(c + [a],
                       if BlankAt(cells, a, setup.size) then sectors else sectors + {setup.SectorOf(a, sectorSize)})
    {
      assert (c + [a])[..|c|] == c;
      assert a in [a];
    }

    /** Read one word; a full cycle is closed, and the pipe is kept below `cycles_per_poll`. */
    method ScanWord(a: nat, open: seq<nat>, ghost before: set<nat>) returns (cycle: seq<nat>, ghost sectors: set<nat>)
      requires WillMark(open, before) && setup.Scannable([a], sectorSize, |cells|, bitmap.Length)
      requires |open| < setup.pageSize / setup.size
      requires inflight < setup.cyclesPerPoll && peak <= setup.cyclesPerPoll
      modifies this`inflight, this`scans, this`peak, bitmap
      ensures WillMark(cycle, sectors)
      ensures sectors == if BlankAt(cells, a, setup.size) then before else before + {setup.SectorOf(a, sectorSize)}
      ensures |cycle| < setup.pageSize / setup.size
      ensures inflight < setup.cyclesPerPoll && peak <= setup.cyclesPerPoll
    {
      sectors := if BlankAt(cells, a, setup.size) then before else before + {setup.SectorOf(a, sectorSize)};
      ReadOne(open, a, before);
      cycle := open + [a];
      if |cycle| == setup.pageSize / setup.size {
        CloseScan(cycle, sectors);
        cycle := [];
        PollScan(setup.cyclesPerPoll, [], sectors);
      }
    }

    /** The inner loop of `quick_scan_gap`: read every word of one window. */
    method ScanWindow(i: nat, first: nat, stop: nat, open: seq<nat>, ghost before: set<nat>)
      returns (cycle: seq<nat>, ghost sectors: set<nat>)
      requires WillMark(open, before)
      requires setup.Geometry(sectorSize, |cells|, bitmap.Length) && i < setup.Sectors(sectorSize)
      requires setup.Start(i, sectorSize) <= first <= stop <= setup.Start(i, sectorSize) + sectorSize
      requires (stop - first) % setup.size == 0
      requires |open| < setup.pageSize / setup.size
      requires inflight < setup.cyclesPerPoll && peak <= setup.cyclesPerPoll
      modifies this`inflight, this`scans, this`peak, bitmap
      ensures WillMark(cycle, sectors)
      ensures sectors == Found(cells, first, stop, i, before)
      ensures |cycle| < setup.pageSize / setup.size
      ensures inflight < setup.cyclesPerPoll && peak <= setup.cyclesPerPoll
    {
      cycle := open;
      sectors := before;
      var position := first;
      while position != stop
        invariant first <= position <= stop && (stop - position) % setup.size == 0
        invariant WillMark(cycle, sectors)
        invariant sectors == Found(cells, first, position, i, before)
        invariant |cycle| < setup.pageSize / setup.size
        invariant inflight < setup.cyclesPerPoll && peak <= setup.cyclesPerPoll
        decreases stop - position
      {
        setup.ScanStep(position, stop, i, sectorSize, |cells|, bitmap.Length);
        cycle, sectors := ScanWord(position, cycle, sectors);
        WindowGrows(cells, first, position, setup.size, i, before);
        position := position + setup.size;
      }
    }

    /** Scan one byte window of every sector that is not already marked. */
    method QuickScanGap(offset: nat, len: nat)
      requires Idle() && peak <= setup.cyclesPerPoll
      requires offset + len <= sectorSize && len % 8 == 0
      modifies this`inflight, this`scans, this`peak, bitmap
      ensures Idle() && peak <= setup.cyclesPerPoll
      ensures Marked() == old(Marked()) + setup.WindowHits(cells, sectorSize, setup.Sectors(sectorSize), offset, len)
    {
      hide WillMark, Setup.WindowHits, Marks;
      NothingSent();
      setup.WindowHitsNone(cells, sectorSize, offset, len);
      setup.Range(sectorSize);
      setup.WordsPerPage();
      setup.EightBytes(len);
      var cycle: seq<nat> := [];
      var words := setup.pageSize / setup.size;
      var i := 0;
      var sector := setup.FirstSector(sectorSize);
      var lastSector := setup.LastSector(sectorSize);
      ghost var before := Marked();
      ghost var sectors := before;
      while sector != lastSector
        invariant i <= setup.Sectors(sectorSize) && sector == setup.Start(i, sectorSize)
        invariant |cycle| < words
        invariant inflight < setup.cyclesPerPoll && peak <= setup.cyclesPerPoll
        invariant WillMark(cycle, sectors)
        invariant sectors == before + setup.WindowHits(cells, sectorSize, i, offset, len)
        decreases setup.Sectors(sectorSize) - i
      {
        if BitmaskGet(i) {
          MarkedIsExpected(i, cycle, sectors);
        } else {
          cycle, sectors := ScanWindow(i, sector + offset, sector + offset + len, cycle, sectors);
        }
        setup.WindowHitsStep(cells, sectorSize, i, offset, len);
        setup.StartStep(i, sectorSize);
        i := i + 1;
        sector := sector + sectorSize;
      }
      if |cycle| > 0 {
        CloseScan(cycle, sectors);
      }
      PollScan(1, [], sectors);
      AllArrived(sectors);
      setup.StartInjective(i, setup.Sectors(sectorSize), sectorSize);
    }

    lemma NothingSent()
      requires sectorSize > 0 && inflight == 0 && scans == []
      ensures WillMark([], Marked())
    {
    }

    lemma MarkedIsExpected(k: nat, c: seq<nat>, sectors: set<nat>)
      requires WillMark(c, sectors) && k in Marked()
      ensures k in sectors
    {
    }

    lemma AllArrived(sectors: set<nat>)
      requires WillMark([], sectors) && inflight == 0
      ensures scans == [] && Marked() == sectors
    {
    }

    /** Scan every sector of the image in windows that double in size, so most dirty sectors are found early. */
    method QuickScan()
      requires Idle() && peak <= setup.cyclesPerPoll
      modifies this`inflight, this`scans, this`peak, bitmap
      ensures Idle() && peak <= setup.cyclesPerPoll
      ensures Marked() == old(Marked()) + setup.DirtySectors(cells, sectorSize)
    {
      ghost var n := setup.Sectors(sectorSize);
      var gap := 8;
      QuickScanGap(0, gap);
      var offset := gap;
      while offset != sectorSize
        invariant offset == gap && 8 <= gap <= sectorSize && IsPow2(gap) && gap % 8 == 0
        invariant Idle() && peak <= setup.cyclesPerPoll
        invariant Marked() == old(Marked()) + setup.WindowHits(cells, sectorSize, n, 0, offset)
        decreases sectorSize - offset
      {
        Pow2Gap(gap, sectorSize);
        Pow2Double(gap);
        setup.WindowHitsJoin(cells, sectorSize, n, offset, gap);
        QuickScanGap(offset, gap);
        offset, gap := offset + gap, gap + gap;
      }
    }

    // ---------------------------------------------------------------- erasing

    /** Erase the sectors whose bit is set. */
    method EraseFlash()
      requires Idle()
      modifies this`cells
      ensures Idle()
      ensures cells == setup.EraseMarked(old(cells), sectorSize, Marked(), setup.Sectors(sectorSize))
    {
      setup.Range(sectorSize);
      var i := 0;
      var sector := setup.FirstSector(sectorSize);
      var lastSector := setup.LastSector(sectorSize);
      while sector != lastSector
        invariant i <= setup.Sectors(sectorSize) && sector == setup.Start(i, sectorSize)
        invariant |cells| == old(|cells|)
        invariant cells == setup.EraseMarked(old(cells), sectorSize, Marked(), i)
        decreases setup.Sectors(sectorSize) - i
      {
        if BitmaskGet(i) {
          cells := Erase(cells, setup.deviceSector, sector);
        }
        setup.StartStep(i, sectorSize);
        i := i + 1;
        sector := sector + sectorSize;
      }
      setup.StartInjective(i, setup.Sectors(sectorSize), sectorSize);
    }

    // ---------------------------------------------------------------- programming

    /** Once the cycles on the wire and the open cycle `open` have landed, the flash holds `final`. */
    ghost predicate WillHold(open: seq<WriteOp>, final: Cells)
      reads this`inflight, this`posts, this`cells
    {
      inflight == |posts| && setup.Land(setup.LandAll(cells, posts), open) == final
    }

    /** `eb_socket_run`: at least one outstanding write cycle lands, any of them, in any order. */
    method RunPost(ghost open: seq<WriteOp>, ghost final: Cells)
      requires WillHold(open, final) && posts != []
      modifies this`inflight, this`posts, this`cells
      ensures WillHold(open, final) && inflight < old(inflight) && |cells| == old(|cells|)
    {
      var n :| 1 <= n <= |posts|;
      while n > 0
        invariant 0 <= n <= |posts| <= old(|posts|)
        invariant n == 0 ==> |posts| < old(|posts|)
        invariant WillHold(open, final) && |cells| == old(|cells|)
      {
        var i :| 0 <= i < |posts|;
        setup.LandFirst(cells, posts, i);
        cells := setup.Land(cells, posts[i]);
        posts := posts[..i] + posts[i + 1..];
        inflight := inflight - 1;
        n := n - 1;
      }
    }

    method PollPost(limit: nat, ghost open: seq<WriteOp>, ghost final: Cells)
      requires WillHold(open, final) && limit >= 1
      modifies this`inflight, this`posts, this`cells
      ensures WillHold(open, final) && inflight < limit && |cells| == old(|cells|)
    {
      while inflight >= limit
        invariant WillHold(open, final) && |cells| == old(|cells|)
      {
        RunPost(open, final);
      }
    }

    method ClosePost(c: seq<WriteOp>, ghost final: Cells)
      requires WillHold(c, final)
      modifies this`inflight, this`posts, this`peak, this`issued
      ensures WillHold([], final) && inflight == old(inflight) + 1
      ensures issued == old(issued) + [c]
      ensures peak == if inflight > old(peak) then inflight else old(peak)
    {
      inflight := inflight + 1;
      if inflight > peak { peak := inflight; }
      posts := posts + [c];
      issued := issued + [c];
      assert posts[..|posts| - 1] == old(posts);
    }

    lemma WriteOne(c: seq<WriteOp>, op: WriteOp, final: Cells)
      requires WillHold(c, final)
      ensures WillHold(c + [op], setup.Land1(final, op))
    {
      assert (c + [op])[..|c|] == c;
    }

    /** Put one write into the open cycle; the last word of a page closes it. */
    method PostWord(op: WriteOp, last: bool, open: seq<WriteOp>, ghost skip: bool, ghost now: Cells)
      returns (cycle: seq<WriteOp>)
      requires WillHold(open, now)
      requires inflight < setup.cyclesPerPoll && peak <= setup.cyclesPerPoll
      modifies this`inflight, this`posts, this`cells, this`peak, this`issued
      ensures WillHold(cycle, setup.Land1(now, op))
      ensures inflight < setup.cyclesPerPoll && peak <= setup.cyclesPerPoll && |cells| == old(|cells|)
      ensures Stream(cycle, last, issued) == Append(Stream(open, skip, old(issued)), op, last)
    {
      WriteOne(open, op, now);
      cycle := open + [op];
      if last {
        ClosePost(cycle, setup.Land1(now, op));
        cycle := [];
        PollPost(setup.cyclesPerPoll, [], setup.Land1(now, op));
      }
    }

    /** One pass of the programming loop, over the word at `offset`: `ffs` says whether it is all ones. */
    method ProgramWord(offset: nat, op: WriteOp, ffs: bool, open: seq<WriteOp>, skip: bool,
                       ghost now: Cells, ghost after: Cells)
      returns (cycle: seq<WriteOp>, maySkip: bool)
      requires after == if offset == setup.eraseAddress || ffs then now else setup.Land1(now, op)
      requires offset != setup.eraseAddress && ffs ==> setup.Land1(now, op) == now
      requires WillHold(open, now)
      requires inflight < setup.cyclesPerPoll && peak <= setup.cyclesPerPoll
      modifies this`inflight, this`posts, this`cells, this`peak, this`issued
      ensures WillHold(cycle, after)
      ensures inflight < setup.cyclesPerPoll && peak <= setup.cyclesPerPoll && |cells| == old(|cells|)
      ensures Stream(cycle, maySkip, issued) == setup.FeedWord(Stream(open, skip, old(issued)), offset, op, ffs)
    {
      hide WillHold, Append, Setup.Land1;
      cycle, maySkip := open, skip;
      if maySkip && ffs {
      } else if offset == setup.eraseAddress {
      } else {
        maySkip := (offset + setup.size) % setup.pageSize == 0;
        cycle := PostWord(op, maySkip, open, skip, now);
      }
    }

    /** The next file word: whether it is all ones, and the bytes a write of it carries. */
    method ReadWord(offset: nat, ghost op: WriteOp, ghost blank: bool) returns (ffs: bool, write: WriteOp)
      requires setup.WordAt(offset) && filePos == offset - setup.address
      requires op == setup.ImageWrite(offset) && blank == AllOnes(setup.FileBytes(offset))
      modifies this`filePos
      ensures ffs == blank && write == op
      ensures filePos == old(filePos) + setup.size
    {
      var buf := setup.image[filePos..filePos + setup.size];
      filePos := filePos + setup.size;
      ffs := IsFfs(buf, setup.big);
      var bytes := Encode(buf, setup.big, setup.invert);
      write := WriteOp(offset, bytes);
    }

    method ReadAndProgram(offset: nat, open: seq<WriteOp>, skip: bool, ghost op: WriteOp, ghost blank: bool,
                          ghost now: Cells, ghost after: Cells)
      returns (cycle: seq<WriteOp>, maySkip: bool)
      requires setup.WordAt(offset) && filePos == offset - setup.address
      requires setup.Transition(offset, op, blank, now, after)
      requires WillHold(open, now)
      requires inflight < setup.cyclesPerPoll && peak <= setup.cyclesPerPoll
      modifies this`inflight, this`posts, this`cells, this`peak, this`issued, this`filePos
      ensures WillHold(cycle, after)
      ensures inflight < setup.cyclesPerPoll && peak <= setup.cyclesPerPoll && |cells| == old(|cells|)
      ensures Stream(cycle, maySkip, issued) == setup.FeedWord(Stream(open, skip, old(issued)), offset, op, blank)
      ensures filePos == old(filePos) + setup.size
    {
      hide WillHold, Setup.FeedWord, Setup.Transition, Setup.Land1, Setup.ImageWrite, Setup.FileBytes, AllOnes;
      setup.TransitionMeans(offset, op, blank, now, after);
      var ffs, write := ReadWord(offset, op, blank);
      cycle, maySkip := ProgramWord(offset, write, ffs, open, skip, now, after);
    }

    /** The loop of `program_flash`; the result is the cycle it leaves open. */
    method ProgramWords() returns (cycle: seq<WriteOp>)
      requires inflight == 0 && posts == [] && peak <= setup.cyclesPerPoll
      requires filePos == 0 && issued == []
      modifies this`inflight, this`posts, this`cells, this`peak, this`issued, this`filePos
      ensures WillHold(cycle, setup.AndImage(old(cells), setup.Stop())) && |cells| == old(|cells|)
      ensures inflight < setup.cyclesPerPoll && peak <= setup.cyclesPerPoll
      ensures cycle == setup.FeedAll(setup.Words()).open && issued == setup.FeedAll(setup.Words()).log
    {
      hide Setup.Transition, Setup.FeedWord, Setup.Writes, Setup.Blanks;
      cycle := [];
      var maySkip := true;
      var offset := setup.address;
      var stopOffset := setup.Stop();
      ghost var start, now, w := cells, cells, 0;
      setup.AddrStep(0);
      setup.AndImageNone(cells);
      while offset != stopOffset
        invariant w <= setup.Words() && offset == setup.Addr(w) && offset <= stopOffset
        invariant filePos == offset - setup.address
        invariant Stream(cycle, maySkip, issued) == setup.FeedAll(w)
        invariant WillHold(cycle, now) && now == setup.AndImage(start, offset)
        invariant inflight < setup.cyclesPerPoll && peak <= setup.cyclesPerPoll && |cells| == |start|
        decreases setup.Words() - w
      {
        setup.AddrIsWord(w);
        setup.AddrStep(w);
        ghost var op, blank, after := setup.ProgramStep(start, w, now);
        cycle, maySkip := ReadAndProgram(offset, cycle, maySkip, op, blank, now, after);
        now, w := after, w + 1;
        offset := offset + setup.size;
      }
      setup.AddrIsWord(w);
    }

    /** Write the image, one cycle per page, leaving out leading blank words and the erase register. */
    method ProgramFlash()
      requires inflight == 0 && posts == [] && peak <= setup.cyclesPerPoll
      requires filePos == 0 && issued == []
      modifies this`inflight, this`posts, this`cells, this`peak, this`issued, this`filePos
      ensures inflight == 0 && posts == [] && peak <= setup.cyclesPerPoll
      ensures cells == setup.AndImage(old(cells), setup.Stop())
      ensures var s := setup.FeedAll(setup.Words()); issued == if s.open == [] then s.log else s.log + [s.open]
    {
      ghost var final := setup.AndImage(cells, setup.Stop());
      var cycle := ProgramWords();
      if |cycle| > 0 {
        ClosePost(cycle, final);
      }
      PollPost(1, [], final);
    }

    // ---------------------------------------------------------------- verifying

    /** The file position is trusted only while `lastOffset` says where it belongs. */
    ghost predicate FileInStep()
      reads this`filePos, this`lastOffset
    {
      lastOffset == -1 || filePos == lastOffset - setup.address
    }

    /** All outstanding reads and the open cycle `open` agree with the file exactly if `verdict`. */
    ghost predicate WillAgree(open: seq<nat>, verdict: bool)
      reads this`inflight, this`scans, this`cells, this`filePos, this`lastOffset
    {
      && inflight == |scans| && setup.Stop() <= |cells| && FileInStep()
      && (forall a | a in open :: setup.WordAt(a))
      && (forall c, a | c in scans && a in c :: setup.WordAt(a))
      && (verdict <==> setup.AllAgree(cells, open) && forall c | c in scans :: setup.AllAgree(cells, c))
    }

    /** The callback of one verify cycle: seek if needed, read the file, compare. */
    method VerifyDecrement(c: seq<nat>) returns (ok: bool)
      requires inflight > 0 && setup.Stop() <= |cells| && FileInStep()
      requires forall a | a in c :: setup.WordAt(a)
      modifies this`inflight, this`filePos, this`lastOffset
      ensures inflight == old(inflight) - 1 && FileInStep()
      ensures ok <==> setup.AllAgree(cells, c)
    {
      inflight := inflight - 1;
      var i := 0;
      while i < |c|
        invariant 0 <= i <= |c| && inflight == old(inflight) - 1 && FileInStep()
        invariant setup.AllAgree(cells, c[..i])
      {
        var a := c[i];
        assert a in c;
        assert c[..i + 1] == c[..i] + [a];
        var buf := FetchFile(a);
        var same := Compare(cells[a..a + setup.size], buf, setup.big, setup.invert);
        if !same {
          return false;
        }
        i := i + 1;
      }
      assert c[..i] == c;
      return true;
    }

    /** Read the file word that belongs to bus address `a`, whatever was read before. */
    method FetchFile(a: nat) returns (buf: seq<bv8>)
      requires setup.WordAt(a) && FileInStep()
      modifies this`filePos, this`lastOffset
      ensures buf == setup.FileBytes(a) && FileInStep()
    {
      if lastOffset != a {
        lastOffset := a;
        filePos := lastOffset - setup.address;
      }
      buf := setup.image[filePos..filePos + setup.size];
      filePos := filePos + setup.size;
      lastOffset := lastOffset + setup.size;
    }

    /** `eb_socket_run`: some verify cycles complete, in any order; the first mismatch ends the run. */
    method RunVerify(ghost open: seq<nat>, ghost verdict: bool) returns (ok: bool)
      requires WillAgree(open, verdict) && scans != []
      modifies this`inflight, this`scans, this`filePos, this`lastOffset
      ensures inflight < old(inflight)
      ensures ok ==> WillAgree(open, verdict)
      ensures !ok ==> !verdict
    {
      var n :| 1 <= n <= |scans|;
      ok := true;
      while n > 0 && ok
        invariant 0 <= n <= |scans| <= old(|scans|)
        invariant inflight <= old(inflight) && (n == 0 || !ok ==> inflight < old(inflight))
        invariant ok ==> WillAgree(open, verdict)
        invariant !ok ==> !verdict
      {
        var i :| 0 <= i < |scans|;
        var c := scans[i];
        ok := VerifyDecrement(c);
        ghost var was := scans;
        scans := scans[..i] + scans[i + 1..];
        assert forall d | d in was :: d == c || d in scans;
        n := n - 1;
      }
    }

    method PollVerify(limit: nat, ghost open: seq<nat>, ghost verdict: bool) returns (ok: bool)
      requires WillAgree(open, verdict) && limit >= 1
      modifies this`inflight, this`scans, this`filePos, this`lastOffset
      ensures ok ==> WillAgree(open, verdict) && inflight < limit
      ensures !ok ==> !verdict
    {
      ok := true;
      while inflight >= limit && ok
        invariant ok ==> WillAgree(open, verdict)
        invariant !ok ==> !verdict
        decreases inflight, ok
      {
        ok := RunVerify(open, verdict);
      }
    }

    method CloseVerify(c: seq<nat>, ghost verdict: bool)
      requires WillAgree(c, verdict)
      modifies this`inflight, this`scans, this`peak
      ensures WillAgree([], verdict) && inflight == old(inflight) + 1
      ensures peak == if inflight > old(peak) then inflight else old(peak)
    {
      inflight := inflight + 1;
      if inflight > peak { peak := inflight; }
      scans := scans + [c];
    }

    /** Read one word back; the last word of a page closes the cycle. */
    method VerifyWord(offset: nat, open: seq<nat>, ghost before: bool, ghost verdict: bool)
      returns (go: bool, cycle: seq<nat>)
      requires WillAgree(open, before) && setup.WordAt(offset)
      requires verdict == (before && setup.Agrees(cells, offset))
      requires inflight < setup.cyclesPerPoll && peak <= setup.cyclesPerPoll
      modifies this`inflight, this`scans, this`peak, this`filePos, this`lastOffset
      ensures peak <= setup.cyclesPerPoll
      ensures go ==> WillAgree(cycle, verdict) && inflight < setup.cyclesPerPoll
      ensures !go ==> !verdict
    {
      cycle := open + [offset];
      go := true;
      if (offset + setup.size) % setup.pageSize == 0 {
        CloseVerify(cycle, verdict);
        cycle := [];
        go := PollVerify(setup.cyclesPerPoll, [], verdict);
      }
    }

    lemma NothingRead()
      requires inflight == 0 && scans == [] && setup.Stop() <= |cells| && FileInStep()
      ensures WillAgree([], true)
    {
    }

    /** The loop of `verify_flash`; the result is the cycle it leaves open. */
    method VerifyWords() returns (ok: bool, cycle: seq<nat>)
      requires inflight == 0 && scans == [] && peak <= setup.cyclesPerPoll
      requires setup.Stop() <= |cells| && FileInStep()
      modifies this`inflight, this`scans, this`peak, this`filePos, this`lastOffset
      ensures peak <= setup.cyclesPerPoll
      ensures ok ==> WillAgree(cycle, setup.Holds(cells, setup.Stop())) && inflight < setup.cyclesPerPoll
      ensures !ok ==> !setup.Holds(cells, setup.Stop())
    {
      hide WillAgree, FileInStep, Setup.Holds, Setup.Agrees;
      NothingRead();
      setup.HoldsNone(cells);
      cycle := [];
      var offset := setup.address;
      var stopOffset := setup.Stop();
      ghost var holds := true;
      ok := true;
      while offset != stopOffset
        invariant setup.address <= offset <= stopOffset && (offset - setup.address) % setup.size == 0
        invariant ok && holds == setup.Holds(cells, offset)
        invariant WillAgree(cycle, holds)
        invariant inflight < setup.cyclesPerPoll && peak <= setup.cyclesPerPoll
        decreases stopOffset - offset
      {
        setup.NextWord(offset);
        setup.HoldsStep(cells, offset);
        ghost var next := holds && setup.Agrees(cells, offset);
        ok, cycle := VerifyWord(offset, cycle, holds, next);
        holds := next;
        offset := offset + setup.size;
        if !ok {
          setup.HoldsLess(cells, offset);
          return;
        }
      }
    }

    /** Read the image back and compare it with the file; `ok` is false where the tool gives up. */
    method VerifyFlash() returns (ok: bool)
      requires inflight == 0 && scans == [] && peak <= setup.cyclesPerPoll
      requires setup.Stop() <= |cells| && FileInStep()
      modifies this`inflight, this`scans, this`peak, this`filePos, this`lastOffset
      ensures ok <==> setup.Holds(cells, setup.Stop())
      ensures ok <==> forall b: nat | setup.InImage(b) :: setup.ShowsFile(b, cells[b])
      ensures peak <= setup.cyclesPerPoll
      ensures ok ==> inflight == 0 && scans == []
    {
      setup.HoldsIs(cells);
      ghost var verdict := setup.Holds(cells, setup.Stop());
      var cycle: seq<nat>;
      ok, cycle := VerifyWords();
      if !ok {
        return;
      }
      if |cycle| > 0 {
        CloseVerify(cycle, verdict);
      }
      ok := PollVerify(1, [], verdict);
    }

    // ---------------------------------------------------------------- detecting the sector size

    /** The word at probe offset `p` is still zero exactly if `p` is the sector size, as far as that is looked at. */
    ghost predicate ProbeTells(target: nat, p: nat)
      reads this
    {
      && target + p + setup.size <= |cells|
      && (p <= setup.deviceSector ==>
            (AllZeros(cells[target + p..target + p + setup.size]) <==> p == setup.deviceSector))
    }

    /** `find_sector_size`: the first probe that still reads zero ends the sector. */
    method FindSectorSize(target: nat, ops: seq<nat>, ghost max: nat) returns (found: nat)
      requires IsPow2(setup.pageSize) && IsPow2(setup.deviceSector) && IsPow2(max)
      requires setup.pageSize <= max && setup.pageSize <= setup.deviceSector
      requires ops == setup.Probes(setup.pageSize, max)
      requires forall p | p in ops :: ProbeTells(target, p)
      ensures found == if setup.deviceSector < max then setup.deviceSector else max
    {
      found := setup.pageSize;
      var i := 0;
      while i < |ops|
        invariant 0 <= i <= |ops| && IsPow2(found) && setup.pageSize <= found
        invariant found <= setup.deviceSector && found <= max
        invariant ops[i..] == setup.Probes(found, max)
        decreases |ops| - i
      {
        assert ops[i] == ops[i..][0] == found && ops[i + 1..] == ops[i..][1..];
        assert ProbeTells(target, ops[i]);
        var zero := ReadsZero(cells[target + ops[i]..target + ops[i] + setup.size], setup.big);
        if zero {
          return;
        }
        Pow2Gap(found, max);
        Pow2Gap(found, setup.deviceSector);
        Pow2Double(found);
        found := 2 * found;
        i := i + 1;
      }
    }

    /** `eb_device_write` to the chip; a write to the erase register would be a command instead. */
    method WriteCells(addr: nat, bytes: seq<bv8>)
      requires addr != setup.eraseAddress
      modifies this`cells
      ensures cells == Program(old(cells), addr, bytes)
    {
      cells := Program(cells, addr, bytes);
    }

    /** Write the zero word at every probe offset; returns the list of offsets. */
    method WritePattern(target: nat, max: nat) returns (ops: seq<nat>)
      requires IsPow2(setup.pageSize) && IsPow2(max) && setup.pageSize <= max
      requires forall p | p in setup.Probes(setup.pageSize, max) :: target + p != setup.eraseAddress
      modifies this`cells
      ensures ops == setup.Probes(setup.pageSize, max)
      ensures Stamped(old(cells), cells, target, max, ops, setup.size)
    {
      hide Stamped;
      setup.SizeFitsPage();
      ops := [];
      var p := setup.pageSize;
      NothingStamped(cells, target, max, setup.size);
      while p < max
        invariant IsPow2(p) && setup.pageSize <= p <= max
        invariant ops + setup.Probes(p, max) == setup.Probes(setup.pageSize, max)
        invariant Stamped(old(cells), cells, target, max, ops, setup.size)
        decreases max - p
      {
        Pow2Gap(p, max);
        Pow2Double(p);
        var bytes := EncodeZero(setup.size, setup.big);
        StampOne(old(cells), cells, target, max, ops, p, bytes);
        assert p in ops + setup.Probes(p, max);
        WriteCells(target + p, bytes);
        assert ops + ([p] + setup.Probes(2 * p, max)) == ops + [p] + setup.Probes(2 * p, max);
        ops := ops + [p];
        p := 2 * p;
      }
    }

    /** Zero the probe words of a window around the middle of the image, erase its first address,
        and see how far the erase reached. */
    method DetectSectorSize() returns (found: nat)
      requires |setup.image| > 0 && setup.Stop() <= |cells|
      requires IsPow2(setup.pageSize) && IsPow2(setup.deviceSector) && setup.pageSize <= setup.deviceSector
      requires setup.ProbesSafe()
      modifies this`cells
      ensures found == setup.Detectable()
      ensures |cells| == old(|cells|)
      ensures forall b: nat | b < |cells| && !setup.InImage(b) ::
        cells[b] == if SameSector(b, setup.ProbeTarget(), setup.deviceSector) then 0xff else old(cells[b])
    {
      var target, max := ProbeWindow();
      var ops := WritePattern(target, max);
      ghost var pattern := cells;
      cells := Erase(cells, setup.deviceSector, target);
      forall p | p in ops
        ensures ProbeTells(target, p)
      {
        setup.ProbesArePowers(setup.pageSize, max, p);
        ProbeOutcome(target, max, p, pattern);
      }
      found := FindSectorSize(target, ops, max);
    }

    lemma ProbeOutcome(target: nat, max: nat, p: nat, pattern: Cells)
      requires IsPow2(max) && IsPow2(setup.deviceSector) && IsPow2(p) && IsPow2(setup.pageSize)
      requires setup.pageSize <= p < max && setup.pageSize <= setup.deviceSector
      requires target % max == 0 && target + max <= |pattern| && cells == Erase(pattern, setup.deviceSector, target)
      requires ZeroAt(pattern, target + p, setup.size)
      ensures ProbeTells(target, p)
    {
      Pow2Gap(p, max);
      setup.SizeFitsPage();
      forall b: nat | target + p <= b < target + p + setup.size
        ensures cells[b] == if b < target + setup.deviceSector then 0xff else 0
      {
        setup.ProbeErased(target, max, b);
      }
      var got := cells[target + p..target + p + setup.size];
      assert got[0] == cells[target + p];
      if p == setup.deviceSector {
        forall i | 0 <= i < |got| ensures got[i] == 0 { assert got[i] == cells[target + p + i]; }
      }
    }

    /** The first loop of `detect_sector_size`, masking the target step by step. */
    method ProbeWindow() returns (target: nat, max: nat)
      requires |setup.image| > 0 && IsPow2(setup.pageSize)
      ensures max == setup.MaxWindow(setup.pageSize) && setup.LargestWindow(max)
      ensures IsPow2(max) && setup.pageSize <= max
      ensures target == AlignDown(setup.Middle(), max) && target % max == 0
      ensures setup.address <= target && target + max <= setup.Stop()
    {
      hide Setup.LargestWindow;
      setup.PageFits();
      var end := setup.address + |setup.image| - 1;
      target := setup.address + |setup.image| / 2;
      var size := setup.pageSize;
      target := AlignDown(target, size);
      ghost var last := size;
      while setup.address <= target && target + size - 1 <= end
        invariant IsPow2(size) && setup.pageSize <= size
        invariant target == AlignDown(setup.Middle(), size)
        invariant if size == last then last == setup.pageSize
                  else size == 2 * last && IsPow2(last) && setup.WindowFits(last)
        invariant size < MAX_SECTOR_SIZE || size == setup.pageSize
        invariant setup.MaxWindow(last) == setup.MaxWindow(setup.pageSize)
        decreases setup.Stop() - size
      {
        last := size;
        DoubleWindow(setup.Middle(), size);
        size := 2 * size;
        target := AlignDown(target, size);
        if size >= MAX_SECTOR_SIZE {
          break;
        }
      }
      assert size == 2 * last;
      max := size / 2;
      setup.MaxWindowStops(last);
      setup.MaxWindowWins();
      AlignDownMultiple(setup.Middle(), max);
      target := AlignDown(setup.Middle(), max);
    }

    // ---------------------------------------------------------------- main

    /** Nothing has been read, marked or sent yet. */
    ghost predicate Fresh()
      reads this, bitmap
    {
      && inflight == 0 && scans == [] && posts == [] && peak == 0 && issued == []
      && filePos == 0 && lastOffset == -1 && Marked() == {} && bitmap.Length == setup.BitmapBytes()
    }

    /** The sectors the tool erases: all it knows of, or the dirty ones. */
    ghost function ToErase(full: bool): set<nat>
      reads this
    {
      if full then Indices(8 * bitmap.Length) else if sectorSize > 0 then setup.DirtySectors(cells, sectorSize) else {}
    }

    lemma EnoughMarks(full: bool)
      requires setup.Geometry(sectorSize, |cells|, bitmap.Length)
      ensures setup.DirtySectors(cells, sectorSize) <= ToErase(full)
    {
    }

    /** Scan (or mark everything) and erase. */
    method ErasePhase(full: bool)
      requires Idle() && peak <= setup.cyclesPerPoll && Marked() == {}
      modifies this`inflight, this`scans, this`peak, this`cells, bitmap
      ensures Idle() && peak <= setup.cyclesPerPoll
      ensures cells == setup.EraseMarked(old(cells), sectorSize, old(ToErase(full)), setup.Sectors(sectorSize))
    {
      if full {
        MarkAll();
      } else {
        QuickScan();
      }
      assert Marked() == old(ToErase(full));
      EraseFlash();
    }

    /** Scan (or mark everything), erase, program, verify.  `ok` is false where the tool exits on a mismatch. */
    method FlashImage(full: bool, eraseOnly: bool, verify: bool) returns (ok: bool)
      requires Idle() && Fresh() && setup.Divides(sectorSize)
      modifies this, bitmap
      ensures sectorSize == old(sectorSize) && peak <= setup.cyclesPerPoll
      ensures eraseOnly ==> ok
      ensures eraseOnly ==>
        cells == setup.EraseMarked(old(cells), sectorSize, old(ToErase(full)), setup.Sectors(sectorSize))
      ensures !eraseOnly ==> cells == setup.Flashed(old(cells), sectorSize, old(ToErase(full)))
      ensures !eraseOnly ==> ok == (verify ==> setup.NothingRefused())
      ensures !eraseOnly && !setup.WordAt(setup.eraseAddress) ==>
        issued == PageCycles(setup.Writes(), setup.Blanks(), setup.WordsInPage(), setup.Words())
    {
      setup.Range(sectorSize);
      EnoughMarks(full);
      setup.FlashedHolds(cells, sectorSize, ToErase(full));
      ErasePhase(full);
      if eraseOnly {
        return true;
      }
      ProgramFlash();
      if !setup.WordAt(setup.eraseAddress) { setup.ProgramPlan(); }
      ok := true;
      if verify {
        ok := VerifyFlash();
      }
    }

    /** `memset(erase_bitmap, 0xFF, erase_bitmap_size)`. */
    method MarkAll()
      modifies bitmap
      ensures Marked() == Indices(8 * bitmap.Length)
    {
      forall i | 0 <= i < bitmap.Length {
        bitmap[i] := 0xff;
      }
      forall k: nat | k < 8 * bitmap.Length
        ensures k in Marked()
      {
        assert bitmap[..][k / 8] == 0xff;
        AllBits(k % 8);
      }
    }

    /** What the caller has to see to: a given sector size fits; or the probing is possible, and if its result is
        believed the image ends inside the chip and, with pages of more than 8 KiB, the bitmap serves it. */
    ghost predicate Prepared(auto: bool)
      reads this`sectorSize, this`cells
    {
      && (!auto ==> setup.Fits(sectorSize, |cells|))
      && (auto ==>
            && |setup.image| > 0 && setup.Stop() <= |cells| && setup.ProbesSafe()
            && IsPow2(setup.deviceSector) && setup.address % setup.deviceSector == 0
            && IsPow2(setup.pageSize) && setup.pageSize <= setup.deviceSector
            && (setup.Believable() ==>
                  && setup.LastSector(setup.Detectable()) <= |cells|
                  && (setup.pageSize <= 0x2000 || setup.Served(setup.Detectable()))))
    }

    /** The sector size is given, or the probing supplies it; only 64 KiB and 256 KiB are believed. */
    method ChooseSectorSize(auto: bool) returns (believed: bool)
      requires Fresh() && Prepared(auto)
      modifies this`sectorSize, this`cells
      ensures believed <==> auto ==> setup.Believable()
      ensures sectorSize == if auto then setup.Detectable() else old(sectorSize)
      ensures setup.OutsideKept(old(cells), cells)
      ensures believed ==> Idle() && setup.Divides(sectorSize)
    {
      believed := true;
      if auto {
        setup.DetectableDivides();
        setup.TargetInImage();
        sectorSize := DetectSectorSize();
        believed := sectorSize == 0x10000 || sectorSize == 0x40000;
        if believed {
          if setup.pageSize <= 0x2000 { setup.BelievedServed(); }
          assert setup.Fits(sectorSize, |cells|);
        }
      }
      if believed { setup.FitsGeometry(sectorSize, |cells|); }
    }

    /** What the phases of the tool leave, in terms of the plan. */
    method RunPhases(auto: bool, full: bool, eraseOnly: bool, verify: bool) returns (outcome: Outcome)
      requires Fresh() && Prepared(auto)
      modifies this, bitmap
      ensures outcome == Suspicious <==> auto && !setup.Believable()
      ensures sectorSize == if auto then setup.Detectable() else old(sectorSize)
      ensures setup.OutsideKept(old(cells), cells)
      ensures outcome != Suspicious ==>
        sectorSize > 0 && setup.Stop() <= setup.LastSector(sectorSize) <= |cells|
      ensures outcome != Suspicious ==>
        forall b: nat | setup.Stop() <= b < setup.LastSector(sectorSize) :: cells[b] == 0xff
      ensures outcome != Suspicious ==>
        forall b: nat | setup.InImage(b) :: cells[b] == if eraseOnly then 0xff else setup.Goal(b)
      ensures outcome == Mismatch <==> outcome != Suspicious && !eraseOnly && verify && !setup.NothingRefused()
    {
      hide Setup.OutsideKept, Setup.Believable;
      var believed := ChooseSectorSize(auto);
      if !believed {
        return Suspicious;
      }
      ghost var probed, marks := cells, ToErase(full);
      setup.Range(sectorSize);
      EnoughMarks(full);
      setup.FlashedExactly(probed, sectorSize, marks);
      setup.OutsideErased(old(cells), probed, sectorSize, marks);
      setup.OutsideFlashed(old(cells), probed, sectorSize, marks);
      setup.RangeIsErased(probed, sectorSize, marks);
      var ok := FlashImage(full, eraseOnly, verify);
      outcome := if ok then Finished else Mismatch;
    }

    /** The whole tool, in terms of the bytes and bits of the file.  A probed sector size is the chip's own or the
        largest window inside the image, whichever is smaller, and only two sizes are believed.  Then every byte of the
        image is in the chip, as it is in the file or with its bits backwards, except for a word at the erase register,
        which stays erased; a mismatch is reported exactly if that word was not blank in the file.  Bytes outside the
        image are kept, or erased along with a sector that holds some of it. */
    method FlashTool(auto: bool, full: bool, eraseOnly: bool, verify: bool) returns (outcome: Outcome)
      requires Fresh() && Prepared(auto)
      modifies this, bitmap
      ensures !auto ==> sectorSize == old(sectorSize)
      ensures auto ==> exists w: nat ::
        setup.LargestWindow(w) && sectorSize == if setup.deviceSector < w then setup.deviceSector else w
      ensures outcome == Suspicious <==> auto && sectorSize != 0x10000 && sectorSize != 0x40000
      ensures outcome != Suspicious ==> setup.Delivered(cells, eraseOnly)
      ensures outcome != Suspicious ==>
        && sectorSize > 0 && setup.LastSector(sectorSize) <= |cells|
        && forall b: nat | setup.Stop() <= b < setup.LastSector(sectorSize) :: cells[b] == 0xff
      ensures outcome == Mismatch <==> outcome != Suspicious && !eraseOnly && verify && setup.SomethingLost()
      ensures setup.OutsideKept(old(cells), cells)
    {
      hide Setup.Believable, Setup.Detectable, Setup.LargestWindow, Setup.Goal, Setup.OutsideKept;
      hide Setup.Delivered, Setup.NothingRefused, Setup.SomethingLost;
      if auto { setup.DetectableIs(); }
      setup.BelievableIs();
      setup.NothingRefusedIs();
      outcome := RunPhases(auto, full, eraseOnly, verify);
      if outcome != Suspicious { setup.DeliveredIs(cells, eraseOnly); }
    }
  }

  datatype Outcome = Suspicious | Mismatch | Finished
}
