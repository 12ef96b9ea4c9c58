/** The image loader: edge, bulk and edge writes that tile the image, between a reset and a release of the processor. */
module FwPlan {
  import opened Align
  import opened Words

  const OPERATIONS_PER_CYCLE: nat := 32

  /** One write of a bus cycle. */
  datatype Write = Write(addr: nat, size: nat, data: bv64)

  /** What is loaded where. */
  datatype Job = Job(image: seq<bv8>, address: nat, big: bool)
  {
    function End(): nat { address + |image| }

    /** The write that carries the image bytes from `addr` on. */
    function WriteAt(addr: nat, size: nat): Write
      requires address <= addr && addr + size <= End()
    {
      Write(addr, size, WordOf(image[addr - address..addr - address + size], big))
    }

    /** The write lies in the image and carries its bytes. */
    predicate Right(w: Write)
    {
      w.size <= 8 && address <= w.addr && w.addr + w.size <= End() && w == WriteAt(w.addr, w.size)
    }

    predicate AllRight(ws: seq<Write>)
    {
      forall i | 0 <= i < |ws| :: Right(ws[i])
    }

    /** The writes follow each other without a gap or an overlap, from `start` to `stop`, in the order of the file. */
    predicate Tiled(ws: seq<Write>, start: nat, stop: nat)
    {
      if ws == [] then start == stop
      else var n := |ws| - 1; Right(ws[n]) && ws[n].addr + ws[n].size == stop && Tiled(ws[..n], start, ws[n].addr)
    }
  }

  /** From the first to the last bulk boundary the writes are bulk words, before and after that edge words;
      and every write is aligned to its own size. */
  predicate Natural(j: Job, ws: seq<Write>, edge: nat, bulk: nat)
    requires bulk > 0
  {
    forall i | 0 <= i < |ws| ::
      && ws[i].size == (if AlignUp(j.address, bulk) <= ws[i].addr < AlignDown(j.End(), bulk) then bulk else edge)
      && ws[i].size > 0 && ws[i].addr % ws[i].size == 0
  }

  lemma TiledMore(j: Job, ws: seq<Write>, start: nat, stop: nat, size: nat)
    requires j.Tiled(ws, start, stop) && size <= 8 && j.address <= stop && stop + size <= j.End()
    ensures j.Tiled(ws + [j.WriteAt(stop, size)], start, stop + size)
  {
    var w := j.WriteAt(stop, size);
    assert (ws + [w])[..|ws|] == ws;
  }

  lemma {:induction false} TiledJoin(j: Job, a: seq<Write>, b: seq<Write>, start: nat, middle: nat, stop: nat)
    requires j.Tiled(a, start, middle) && j.Tiled(b, middle, stop)
    ensures j.Tiled(a + b, start, stop)
    decreases |b|
  {
    hide Job.Right;
    if b == [] {
      assert a + b == a;
    } else {
      var n := |b| - 1;
      assert (a + b)[..|a| + n] == a + b[..n];
      TiledJoin(j, a, b[..n], start, middle, b[n].addr);
    }
  }

  lemma {:induction false} TiledIsRight(j: Job, ws: seq<Write>, start: nat, stop: nat)
    requires j.Tiled(ws, start, stop)
    ensures j.AllRight(ws) && start <= stop
    ensures forall i | 0 <= i < |ws| :: start <= ws[i].addr && ws[i].addr + ws[i].size <= stop
    decreases |ws|
  {
    hide Job.Right;
    if ws != [] {
      var n := |ws| - 1;
      TiledIsRight(j, ws[..n], start, ws[n].addr);
      forall i | 0 <= i < |ws|
        ensures j.Right(ws[i]) && start <= ws[i].addr && ws[i].addr + ws[i].size <= stop
      {
        if i < n { assert ws[..n][i] == ws[i]; }
      }
    }
  }

  predicate Covers(ws: seq<Write>, a: nat)
  {
    exists i :: 0 <= i < |ws| && CoversAt(ws[i], a)
  }

  predicate CoversAt(w: Write, a: nat)
  {
    w.addr <= a < w.addr + w.size
  }

  /** No address is covered twice. */
  predicate CoversOnce(ws: seq<Write>, a: nat)
  {
    forall p, q | 0 <= p < q < |ws| :: !(CoversAt(ws[p], a) && CoversAt(ws[q], a))
  }

  /** Every address of the range is written, and by one write only. */
  lemma {:induction false} TiledCovers(j: Job, ws: seq<Write>, start: nat, stop: nat, a: nat)
    requires j.Tiled(ws, start, stop) && start <= a < stop
    ensures Covers(ws, a) && CoversOnce(ws, a)
    decreases |ws|
  {
    hide Job.Right;
    var n := |ws| - 1;
    var w := ws[n];
    var front := ws[..n];
    TiledIsRight(j, front, start, w.addr);
    if a < w.addr {
      TiledCovers(j, front, start, w.addr, a);
      CoversFront(front, w, a);
    } else {
      assert CoversAt(ws[n], a);
      forall p | 0 <= p < n ensures !CoversAt(ws[p], a) { assert front[p] == ws[p]; }
    }
    assert ws == front + [w];
  }

  lemma CoversFront(front: seq<Write>, w: Write, a: nat)
    requires Covers(front, a) && CoversOnce(front, a) && a < w.addr
    ensures Covers(front + [w], a) && CoversOnce(front + [w], a)
  {
    var ws := front + [w];
    var i :| 0 <= i < |front| && CoversAt(front[i], a);
    assert CoversAt(ws[i], a);
    forall p, q | 0 <= p < q < |ws|
      ensures !(CoversAt(ws[p], a) && CoversAt(ws[q], a))
    {
      if q < |front| { assert ws[p] == front[p] && ws[q] == front[q]; }
    }
  }

  // ---------------------------------------------------------------- the memory behind the bus

  function Put(mem: map<nat, bv8>, addr: nat, bytes: seq<bv8>): map<nat, bv8>
    decreases |bytes|
  {
    if bytes == [] then mem else Put(mem[addr := bytes[0]], addr + 1, bytes[1..])
  }

  function Store(mem: map<nat, bv8>, w: Write, big: bool): map<nat, bv8>
  {
    Put(mem, w.addr, BytesOf(w.data, w.size, big))
  }

  /** The memory after the writes of a cycle. */
  function Land(mem: map<nat, bv8>, ws: seq<Write>, big: bool): map<nat, bv8>
    decreases |ws|
  {
    if ws == [] then mem else Land(Store(mem, ws[0], big), ws[1..], big)
  }

  predicate SameAt(mem: map<nat, bv8>, other: map<nat, bv8>, a: nat)
  {
    (a in mem <==> a in other) && (a in mem ==> mem[a] == other[a])
  }

  /** The memory holds the image byte at `a`. */
  predicate GoodAt(j: Job, mem: map<nat, bv8>, a: nat)
  {
    j.address <= a < j.End() && a in mem && mem[a] == j.image[a - j.address]
  }

  lemma {:induction false} PutAt(mem: map<nat, bv8>, addr: nat, bytes: seq<bv8>, a: nat)
    ensures if addr <= a < addr + |bytes| then a in Put(mem, addr, bytes) && Put(mem, addr, bytes)[a] == bytes[a - addr]
            else SameAt(Put(mem, addr, bytes), mem, a)
    decreases |bytes|
  {
    if bytes != [] { PutAt(mem[addr := bytes[0]], addr + 1, bytes[1..], a); }
  }

  lemma StoreRight(j: Job, mem: map<nat, bv8>, w: Write, a: nat)
    requires j.Right(w)
    ensures if CoversAt(w, a) then GoodAt(j, Store(mem, w, j.big), a) else SameAt(Store(mem, w, j.big), mem, a)
  {
    hide WordOf, BytesOf;
    var bytes := j.image[w.addr - j.address..w.addr - j.address + w.size];
    BytesOfWordOf(bytes, j.big);
    PutAt(mem, w.addr, bytes, a);
  }

  /** Right writes make what they cover good, leave the rest alone, and never harm what is good. */
  lemma {:induction false} LandRight(j: Job, mem: map<nat, bv8>, ws: seq<Write>, a: nat)
    requires j.AllRight(ws)
    ensures var m := Land(mem, ws, j.big);
      && (Covers(ws, a) || GoodAt(j, mem, a) ==> GoodAt(j, m, a))
      && (!Covers(ws, a) ==> SameAt(m, mem, a))
    decreases |ws|
  {
    hide Store, Job.Right, Covers, CoversAt;
    if ws == [] {
      CoversNothing(a);
    } else {
      var m := Store(mem, ws[0], j.big);
      StoreRight(j, mem, ws[0], a);
      LandRight(j, m, ws[1..], a);
      CoversOneOrRest(ws, a);
    }
  }

  lemma CoversNothing(a: nat)
    ensures !Covers([], a)
  {
  }

  lemma CoversOneOrRest(ws: seq<Write>, a: nat)
    requires ws != []
    ensures Covers(ws, a) <==> CoversAt(ws[0], a) || Covers(ws[1..], a)
  {
    if Covers(ws, a) {
      var i :| 0 <= i < |ws| && CoversAt(ws[i], a);
      if i > 0 { assert ws[1..][i - 1] == ws[i]; }
    }
    if Covers(ws[1..], a) {
      var i :| 0 <= i < |ws[1..]| && CoversAt(ws[1..][i], a);
      assert ws[i + 1] == ws[1..][i];
    }
  }

  /** Between the first write and the last acknowledgement: everything before `upto` is good or still under way,
      and nothing outside the image has changed. */
  ghost predicate UnderWay(j: Job, was: map<nat, bv8>, mem: map<nat, bv8>, pending: multiset<seq<Write>>, upto: nat)
  {
    && upto <= j.End()
    && (forall c | c in pending :: j.AllRight(c))
    && (forall a: nat | j.address <= a < upto :: GoodAt(j, mem, a) || exists c :: c in pending && Covers(c, a))
    && (forall a: nat | !(j.address <= a < j.End()) :: SameAt(mem, was, a))
  }

  /** Another cycle is sent. */
  lemma Sent(j: Job, was: map<nat, bv8>, mem: map<nat, bv8>, pending: multiset<seq<Write>>, upto: nat,
             c: seq<Write>, stop: nat)
    requires UnderWay(j, was, mem, pending, upto) && j.Tiled(c, upto, stop)
    ensures UnderWay(j, was, mem, pending + multiset{c}, stop)
  {
    hide Job.Right, GoodAt, SameAt, Covers;
    TiledIsRight(j, c, upto, stop);
    TiledEnds(j, c, upto, stop);
    var p := pending + multiset{c};
    assert c in p;
    forall a: nat | j.address <= a < stop
      ensures GoodAt(j, mem, a) || exists d :: d in p && Covers(d, a)
    {
      if a < upto {
        if d :| d in pending && Covers(d, a) { assert d in p; }
      } else {
        TiledCovers(j, c, upto, stop, a);
      }
    }
  }

  lemma TiledEnds(j: Job, ws: seq<Write>, start: nat, stop: nat)
    requires j.Tiled(ws, start, stop) && start <= j.End()
    ensures stop <= j.End()
  {
  }

  lemma CoversInside(j: Job, ws: seq<Write>, a: nat)
    requires j.AllRight(ws) && Covers(ws, a)
    ensures j.address <= a < j.End()
  {
    var i :| 0 <= i < |ws| && CoversAt(ws[i], a);
    assert j.Right(ws[i]);
  }

  /** Any one of the cycles under way lands. */
  lemma Landed(j: Job, was: map<nat, bv8>, mem: map<nat, bv8>, pending: multiset<seq<Write>>, upto: nat, c: seq<Write>)
    requires UnderWay(j, was, mem, pending, upto) && c in pending
    ensures UnderWay(j, was, Land(mem, c, j.big), pending - multiset{c}, upto)
  {
    hide Land, Job.AllRight, GoodAt, Covers;
    var m, p := Land(mem, c, j.big), pending - multiset{c};
    assert j.AllRight(c);
    forall a: nat | j.address <= a < upto
      ensures GoodAt(j, m, a) || exists d :: d in p && Covers(d, a)
    {
      LandRight(j, mem, c, a);
      if !GoodAt(j, m, a) {
        var d :| d in pending && Covers(d, a);
        assert d in p;
      }
    }
    forall a: nat | !(j.address <= a < j.End())
      ensures SameAt(m, was, a)
    {
      LandRight(j, mem, c, a);
      assert SameAt(mem, was, a);
      if Covers(c, a) { CoversInside(j, c, a); }
    }
  }

  /** Exactly the image is in the memory, and nothing else has changed. */
  ghost predicate Loaded(j: Job, was: map<nat, bv8>, mem: map<nat, bv8>)
  {
    && (forall a: nat | j.address <= a < j.End() :: GoodAt(j, mem, a))
    && (forall a: nat | !(j.address <= a < j.End()) :: SameAt(mem, was, a))
  }

  lemma NothingPending(j: Job, was: map<nat, bv8>, mem: map<nat, bv8>)
    requires UnderWay(j, was, mem, multiset{}, j.End())
    ensures Loaded(j, was, mem)
  {
  }

  // ---------------------------------------------------------------- when the loops come out even

  /** The image can be written faithfully: both ends lie on edges, and it reaches the first bulk boundary. */
  predicate Faithful(j: Job, edge: nat, bulk: nat)
    requires edge > 0 && bulk > 0
  {
    j.address % edge == 0 && |j.image| % edge == 0 && AlignUp(j.address, bulk) <= j.End()
  }

  /** Widths that a device offers. */
  predicate Widths(edge: nat, bulk: nat)
  {
    Width(edge) && Width(bulk) && bulk % edge == 0
  }
}
