/** The loader: it reads the image file in order, sends cycles, and waits for their acknowledgements. */
module FwLoad {
  import opened Align
  import opened Words
  import opened FwPlan

  /** What the device sees, in order. */
  datatype Event = SetReset | Issue(cycle: seq<Write>) | Ack | Release

  /** All writes of some events, in order. */
  function Issued(events: seq<Event>): seq<Write>
  {
    if events == [] then []
    else var n := |events| - 1; Issued(events[..n]) + if events[n].Issue? then events[n].cycle else []
  }

  /** Cycles sent, less cycles acknowledged. */
  function Open(events: seq<Event>): int
  {
    if events == [] then 0
    else var n := |events| - 1;
      Open(events[..n]) + if events[n].Issue? then 1 else if events[n].Ack? then -1 else 0
  }

  /** The processor is in reset from the first event on. */
  predicate InReset(events: seq<Event>)
  {
    && events != [] && events[0] == SetReset
    && forall i | 1 <= i < |events| :: events[i].Issue? || events[i].Ack?
  }

  lemma EventAdded(events: seq<Event>, e: Event)
    ensures Issued(events + [e]) == Issued(events) + if e.Issue? then e.cycle else []
    ensures Open(events + [e]) == Open(events) + if e.Issue? then 1 else if e.Ack? then -1 else 0
    ensures InReset(events) && (e.Issue? || e.Ack?) ==> InReset(events + [e])
    ensures Small(events) && (e.Issue? ==> 1 <= |e.cycle| <= 32) ==> Small(events + [e])
  {
    assert (events + [e])[..|events|] == events;
  }

  /** Cycles never hold more operations than the packets have room for. */
  ghost predicate Small(events: seq<Event>)
  {
    forall i | 0 <= i < |events| :: events[i].Issue? ==> 1 <= |events[i].cycle| <= 32
  }

  /** At no moment are more than `k` cycles without their acknowledgement. */
  ghost predicate AtMost(events: seq<Event>, k: nat)
  {
    forall n | 0 <= n <= |events| :: Open(events[..n]) <= k
  }

  lemma AtMostMore(events: seq<Event>, e: Event, k: nat)
    requires AtMost(events, k) && Open(events) + (if e.Issue? then 1 else 0) <= k
    ensures AtMost(events + [e], k)
  {
    hide Open;
    var all := events + [e];
    EventAdded(events, e);
    forall n | 0 <= n <= |all| ensures Open(all[..n]) <= k {
      if n <= |events| { assert all[..n] == events[..n]; } else { assert all[..n] == all; }
    }
  }

  lemma OpenIsFew(events: seq<Event>, k: nat)
    requires AtMost(events, k)
    ensures Open(events) <= k
  {
    assert events[..|events|] == events;
  }

  lemma NoneOpen(k: nat)
    ensures AtMost([SetReset], k)
  {
    assert [SetReset][..0] == [] && [SetReset][..1] == [SetReset];
    assert Open([]) == 0 && Open([SetReset]) == 0;
  }

  lemma FewWords(n: nat, edge: nat, bulk: nat)
    requires Width(edge) && Width(bulk) && n * edge < bulk
    ensures n <= 7
  {
    WidthSmall(bulk);
    MulLe(n, 1, edge);
  }

  class Loader {
    const job: Job
    var memory: map<nat, bv8>
    var pending: multiset<seq<Write>>     // cycles that were sent and not yet acknowledged
    var todo: nat
    var position: nat                     // in the image file
    var events: seq<Event>
    ghost const was: map<nat, bv8>        // the memory before

    /** The writes so far have gone as far as the file has been read. */
    ghost predicate Valid()
      reads this
    {
      && todo == |pending| == Open(events) && InReset(events) && Small(events)
      && position <= |job.image|
      && job.Tiled(Issued(events), job.address, job.address + position)
      && UnderWay(job, was, memory, pending, job.address + position)
    }

    /** Puts the processor into reset. */
    constructor (j: Job, mem: map<nat, bv8>)
      ensures Valid() && job == j && was == mem && position == 0 && events == [SetReset]
    {
      job, memory, was := j, mem, mem;
      pending, todo, position := multiset{}, 0, 0;
      events := [SetReset];
      new;
      assert events[..0] == [];
    }

    /** `eb_socket_run`, until everything has been acknowledged: in any order the cycles land and are acknowledged. */
    method Drain()
      requires Valid()
      modifies this`memory, this`pending, this`todo, this`events
      ensures Valid() && todo == 0 && pending == multiset{}
      ensures Issued(events) == old(Issued(events))
      ensures forall k: nat | old(AtMost(events, k)) :: AtMost(events, k)
    {
      hide UnderWay, Land, Issued, Open, InReset, Small, Job.Tiled, AtMost;
      while todo > 0
        invariant Valid() && Issued(events) == old(Issued(events))
        invariant forall k: nat | old(AtMost(events, k)) :: AtMost(events, k)
        decreases todo
      {
        var cycle :| cycle in pending;
        assert |pending - multiset{cycle}| == |pending| - 1;
        assert Issued(events) + [] == Issued(events);
        Landed(job, was, memory, pending, job.address + position, cycle);
        EventAdded(events, Ack);
        forall k: nat | AtMost(events, k) ensures AtMost(events + [Ack], k) {
          OpenIsFew(events, k);
          AtMostMore(events, Ack, k);
        }
        memory := Land(memory, cycle, job.big);
        pending := pending - multiset{cycle};
        todo := todo - 1;
        events := events + [Ack];
      }
    }

    /** `transfer`: one cycle of `count` words.  A short read ends the program before the cycle is sent. */
    method Transfer(pos: nat, size: nat, count: nat) returns (ok: bool, ghost cycle: seq<Write>)
      requires Valid() && Width(size) && 1 <= count <= OPERATIONS_PER_CYCLE && pos == job.address + position
      modifies this`pending, this`todo, this`position, this`events
      ensures Valid() && (ok <==> pos + count * size <= job.End())
      ensures ok ==> position == old(position) + count * size && todo == old(todo) + 1
      ensures ok ==> events == old(events) + [Issue(cycle)] && AllOf(cycle, size, pos, pos + count * size)
      ensures !ok ==> events == old(events) && position == old(position) && todo == old(todo)
    {
      hide UnderWay, Issued, Open, InReset, Small, Job.Tiled, WordOf;
      WidthSmall(size);
      var writes: seq<Write>, at: nat, address: nat := [], position, pos;
      cycle := [];
      NothingTiled(job, pos);
      var i := 0;
      while i < count
        invariant 0 <= i <= count && |writes| == i && AllOf(writes, size, pos, address)
        invariant at == position + i * size && address == job.address + at && at <= |job.image|
        invariant pos % size == 0 ==> address % size == 0
        invariant job.Tiled(writes, pos, address)
        modifies {}
      {
        OneMoreStep(i, count, size);
        if at + size > |job.image| {
          return false, writes;
        }
        var buffer := job.image[at..at + size];
        var data := Assemble(buffer, job.big);
        TiledMore(job, writes, pos, address, size);
        NextAligned(address, size);
        writes := writes + [Write(address, size, data)];
        at, address := at + size, address + size;
        i := i + 1;
      }
      cycle := writes;
      Close(writes, at);
      ok := true;
    }

    /** The end of `transfer`: the cycle is sent. */
    method Close(cycle: seq<Write>, at: nat)
      requires Valid() && 1 <= |cycle| <= OPERATIONS_PER_CYCLE && at <= |job.image|
      requires job.Tiled(cycle, job.address + position, job.address + at)
      modifies this`pending, this`todo, this`position, this`events
      ensures Valid() && position == at && todo == old(todo) + 1 && events == old(events) + [Issue(cycle)]
    {
      hide UnderWay, Issued, Open, InReset, Small, Job.Tiled;
      Sent(job, was, memory, pending, job.address + position, cycle, job.address + at);
      EventAdded(events, Issue(cycle));
      TiledJoin(job, Issued(events), cycle, job.address, job.address + position, job.address + at);
      pending := pending + multiset{cycle};
      todo := todo + 1;
      events := events + [Issue(cycle)];
      position := at;
    }

    // ---------------------------------------------------------------- the three loops

    /** Edge words up to the first bulk boundary.  There is no test for the end of the image. */
    method Head(edge: nat, bulk: nat) returns (ok: bool, pos: nat)
      requires Valid() && Widths(edge, bulk) && position == 0 && Natural(job, Issued(events), edge, bulk)
      modifies this`pending, this`todo, this`position, this`events
      ensures Valid() && (ok <==> job.address % edge == 0 && AlignUp(job.address, bulk) <= job.End())
      ensures ok ==> pos == AlignUp(job.address, bulk) == job.address + position
      ensures ok ==> Natural(job, Issued(events), edge, bulk)
      ensures ok && old(todo) == 0 && old(AtMost(events, 7)) ==> AtMost(events, 7)
    {
      hide Valid, Natural, Width, AtMost;
      WidthsPositive(edge, bulk);
      pos := job.address;
      while pos % bulk != 0
        invariant position == (todo - old(todo)) * edge && todo >= old(todo)
        invariant job.address % edge == 0 && old(todo) == 0 && old(AtMost(events, 7)) ==> AtMost(events, 7)
        invariant Valid() && pos == job.address + position && pos <= job.End()
        invariant pos % edge == job.address % edge
        invariant job.address % edge == 0 ==>
          pos <= AlignUp(job.address, bulk) && Natural(job, Issued(events), edge, bulk)
        decreases |job.image| - position
      {
        HeadStep(job.address, pos, edge, bulk);
        ghost var cycle, before, n := [], events, todo;
        OpenIsTodo();
        ok, cycle := Transfer(pos, edge, 1);
        if !ok {
          return;
        }
        assert (n + 1 - old(todo)) * edge == (n - old(todo)) * edge + edge;
        if job.address % edge == 0 && old(todo) == 0 && old(AtMost(events, 7)) {
          FewWords(n + 1, edge, bulk);
          AtMostMore(before, Issue(cycle), 7);
        }
        if job.address % edge == 0 {
          NaturalMore(job, before, cycle, edge, bulk, edge, pos, pos + edge);
        }
        pos := pos + edge;
      }
      HeadEnd(job.address, pos, edge, bulk);
      ok := true;
    }

    /** Bulk words in cycles, with a flush after every `cycles` of them. */
    method Bulk(start: nat, edge: nat, bulk: nat, cycles: nat) returns (pos: nat)
      requires Valid() && Widths(edge, bulk) && cycles > 0 && Natural(job, Issued(events), edge, bulk)
      requires start == job.address + position && start % bulk == 0 && AlignUp(job.address, bulk) <= start
      modifies this`memory, this`pending, this`todo, this`position, this`events
      ensures Valid() && pos == AlignDown(job.End(), bulk) == job.address + position
      ensures Natural(job, Issued(events), edge, bulk)
      ensures old(todo) == 0 ==> todo < cycles
      ensures old(todo) == 0 ==> forall k: nat | k >= cycles && old(AtMost(events, k)) :: AtMost(events, k)
    {
      hide Valid, Natural, Width, AtMost;
      PositionInside();
      WidthsPositive(edge, bulk);
      pos := start;
      var end := AlignDown(job.End(), bulk);
      BulkStarts(pos, job.End(), bulk);
      var cycle := 0;
      while pos < end
        invariant Valid() && Natural(job, Issued(events), edge, bulk)
        invariant pos == job.address + position && pos % bulk == 0 && start <= pos <= end
        invariant 0 <= cycle < cycles && (old(todo) == 0 ==> todo == cycle)
        invariant old(todo) == 0 ==> forall k: nat | k >= cycles && old(AtMost(events, k)) :: AtMost(events, k)
        decreases end - pos
      {
        var step := (end - pos) / bulk;
        BulkStep(pos, end, bulk, step);
        if step > OPERATIONS_PER_CYCLE { step := OPERATIONS_PER_CYCLE; }
        BulkPart(pos, end, bulk, step);
        ghost var before := events;
        OpenIsTodo();
        var ok, c := Transfer(pos, bulk, step);
        if old(todo) == 0 {
          forall k: nat | k >= cycles && AtMost(before, k) ensures AtMost(events, k) {
            AtMostMore(before, Issue(c), k);
          }
        }
        NaturalMore(job, before, c, edge, bulk, bulk, pos, pos + step * bulk);
        cycle := cycle + 1;
        if cycle == cycles {
          cycle := 0;
          Drain();
        }
        pos := pos + step * bulk;
      }
    }

    /** Edge words up to the end. */
    method Tail(start: nat, edge: nat, bulk: nat) returns (ok: bool)
      requires Valid() && Widths(edge, bulk) && Natural(job, Issued(events), edge, bulk)
      requires start == job.address + position && start % edge == 0 && AlignDown(job.End(), bulk) <= start
      modifies this`pending, this`todo, this`position, this`events
      ensures Valid() && (ok <==> job.End() % edge == 0)
      ensures ok ==> position == |job.image| && Natural(job, Issued(events), edge, bulk)
      ensures start == AlignDown(job.End(), bulk) ==>
        forall k: nat | k >= old(todo) + 7 && old(AtMost(events, k)) :: AtMost(events, k)
    {
      hide Valid, Natural, Width, AtMost;
      PositionInside();
      WidthsPositive(edge, bulk);
      var pos := start;
      while pos < job.End()
        invariant Valid() && Natural(job, Issued(events), edge, bulk)
        invariant pos == job.address + position && pos % edge == 0 && pos <= job.End()
        invariant pos == start + (todo - old(todo)) * edge && todo >= old(todo) && start <= pos
        invariant start == AlignDown(job.End(), bulk) ==>
          forall k: nat | k >= old(todo) + 7 && old(AtMost(events, k)) :: AtMost(events, k)
        decreases job.End() - pos
      {
        TailStep(pos, job.End(), edge);
        NextAligned(pos, edge);
        ghost var cycle, before, n := [], events, todo;
        OpenIsTodo();
        ok, cycle := Transfer(pos, edge, 1);
        if !ok {
          return;
        }
        assert (n + 1 - old(todo)) * edge == (n - old(todo)) * edge + edge;
        if start == AlignDown(job.End(), bulk) {
          FewWords(n + 1 - old(todo), edge, bulk);
          forall k: nat | k >= old(todo) + 7 && AtMost(before, k) ensures AtMost(events, k) {
            AtMostMore(before, Issue(cycle), k);
          }
        }
        NaturalMore(job, before, cycle, edge, bulk, edge, pos, pos + edge);
        pos := pos + edge;
      }
      ok := true;
    }

    lemma OpenIsTodo()
      requires Valid()
      ensures Open(events) == todo
    {
    }

    lemma PositionInside()
      requires Valid()
      ensures position <= |job.image|
    {
    }

    /** From reset to release: the processor is let go exactly if both ends of the image lie on edges and it reaches a
        bulk boundary, and then only when every cycle has been acknowledged and the memory holds the image, byte for
        byte; otherwise it stays in reset, and what has been written so far is right.  Beside the image nothing changes.
        If all goes well, hardly more cycles than are allowed between flushes are ever without acknowledgement. */
    method Load(edge: nat, bulk: nat, cycles: nat) returns (ok: bool)
      requires Valid() && Widths(edge, bulk) && cycles > 0 && position == 0 && events == [SetReset]
      modifies this`memory, this`pending, this`todo, this`position, this`events
      ensures ok <==> && job.address % edge == 0 && |job.image| % edge == 0
                      && exists m: nat :: m % bulk == 0 && job.address <= m <= job.address + |job.image|
      ensures ok ==> forall a: nat | job.address <= a < job.address + |job.image| ::
        a in memory && memory[a] == job.image[a - job.address]
      ensures forall a: nat | !(job.address <= a < job.address + |job.image|) ::
        (a in memory <==> a in was) && (a in memory ==> memory[a] == was[a])
      ensures ok ==> Released(events) && pending == multiset{} && AtMost(events, cycles + 6)
      ensures ok ==> job.Tiled(Issued(events), job.address, job.End())
      ensures ok ==> Natural(job, Issued(events), edge, bulk) && Small(events)
      ensures !ok ==> Valid()
    {
      hide Valid, Natural, Loaded, Job.Tiled, Issued, Released, AtMost, Small;
      WidthsPositive(edge, bulk);
      FaithfulIs(job, edge, bulk);
      ok := Phases(edge, bulk, cycles);
      if ok { LoadedIs(job, was, memory); } else { OutsideAsBefore(); }
    }

    lemma OutsideAsBefore()
      requires Valid()
      ensures forall a: nat | !(job.address <= a < job.address + |job.image|) ::
        (a in memory <==> a in was) && (a in memory ==> memory[a] == was[a])
    {
      forall a: nat | !(job.address <= a < job.End())
        ensures (a in memory <==> a in was) && (a in memory ==> memory[a] == was[a])
      {
        assert SameAt(memory, was, a);
      }
    }

    /** The phases of the loader. */
    method Phases(edge: nat, bulk: nat, cycles: nat) returns (ok: bool)
      requires Valid() && Widths(edge, bulk) && cycles > 0 && position == 0 && events == [SetReset]
      modifies this`memory, this`pending, this`todo, this`position, this`events
      ensures ok <==> Faithful(job, edge, bulk)
      ensures ok ==> Loaded(job, was, memory) && Released(events)
      ensures ok ==> pending == multiset{} && AtMost(events, cycles + 6)
      ensures ok ==> job.Tiled(Issued(events), job.address, job.End())
      ensures ok ==> Natural(job, Issued(events), edge, bulk) && Small(events)
      ensures !ok ==> Valid()
    {
      hide Natural, UnderWay, Loaded, Job.Tiled, Open, Width, Issued, Released, AtMost;
      WidthsPositive(edge, bulk);
      NothingIssued(job, edge, bulk);
      NoneOpen(7);
      OpenIsTodo();
      StartsClosed();
      var pos: nat;
      ok, pos := Head(edge, bulk);
      if !ok {
        return;
      }
      Drain();
      AtMostRises(events, 7, cycles + 6);
      pos := Bulk(pos, edge, bulk, cycles);
      BulkIsEdge(job.End(), edge, bulk);
      EndIsEdge(job.address, |job.image|, edge);
      ok := Tail(pos, edge, bulk);
      if !ok {
        return;
      }
      Drain();
      NothingPending(job, was, memory);
      EventAdded(events, Release);
      assert Issued(events) + [] == Issued(events);
      ReleasedNow(events);
      SmallNow(events);
      OpenIsFew(events, cycles + 6);
      AtMostMore(events, Release, cycles + 6);
      events := events + [Release];
    }
  }

  lemma StartsClosed()
    ensures Open([SetReset]) == 0
  {
    assert [SetReset][..0] == [];
  }

  lemma AtMostRises(events: seq<Event>, j: nat, k: nat)
    requires AtMost(events, j) && j <= k
    ensures AtMost(events, k)
  {
  }

  lemma FaithfulIs(j: Job, edge: nat, bulk: nat)
    requires edge > 0 && bulk > 0
    ensures Faithful(j, edge, bulk) <==>
      && j.address % edge == 0 && |j.image| % edge == 0
      && exists m: nat :: m % bulk == 0 && j.address <= m <= j.address + |j.image|
  {
    var up := AlignUp(j.address, bulk);
    UpMultiple(j.address, bulk);
    forall m: nat | m % bulk == 0 && j.address <= m
      ensures up <= m
    {
      if m < up { MultiplesApart(m, up, bulk); }
    }
  }

  lemma LoadedIs(j: Job, was: map<nat, bv8>, mem: map<nat, bv8>)
    requires Loaded(j, was, mem)
    ensures forall a: nat | j.address <= a < j.address + |j.image| :: a in mem && mem[a] == j.image[a - j.address]
    ensures forall a: nat | !(j.address <= a < j.address + |j.image|) ::
      (a in mem <==> a in was) && (a in mem ==> mem[a] == was[a])
  {
    forall a: nat | !(j.address <= a < j.End())
      ensures (a in mem <==> a in was) && (a in mem ==> mem[a] == was[a])
    {
      assert SameAt(mem, was, a);
    }
    forall a: nat | j.address <= a < j.End()
      ensures a in mem && mem[a] == j.image[a - j.address]
    {
      assert GoodAt(j, mem, a);
    }
  }

  /** The release is the last event, and comes when as many cycles have been acknowledged as were sent. */
  ghost predicate Released(events: seq<Event>)
  {
    var n := |events| - 1;
    n >= 1 && events[n] == Release && InReset(events[..n]) && Open(events[..n]) == 0
  }

  lemma ReleasedNow(events: seq<Event>)
    requires InReset(events) && Open(events) == 0
    ensures Released(events + [Release])
  {
    assert (events + [Release])[..|events|] == events;
  }

  lemma SmallNow(events: seq<Event>)
    requires Small(events)
    ensures Small(events + [Release])
  {
  }

  lemma NothingIssued(j: Job, edge: nat, bulk: nat)
    requires bulk > 0
    ensures Issued([SetReset]) == [] && Natural(j, [], edge, bulk)
  {
    assert [SetReset][..0] == [];
  }

  lemma NothingTiled(j: Job, pos: nat)
    ensures j.Tiled([], pos, pos)
  {
  }

  /** Writes of one size in a range, each on its own boundary if the range begins on one. */
  predicate AllOf(ws: seq<Write>, size: nat, start: nat, stop: nat)
  {
    size > 0 && forall i | 0 <= i < |ws| ::
      ws[i].size == size && start <= ws[i].addr < stop && (start % size == 0 ==> ws[i].addr % size == 0)
  }

  lemma NaturalMore(j: Job, events: seq<Event>, c: seq<Write>, edge: nat, bulk: nat, size: nat, start: nat, stop: nat)
    requires bulk > 0 && AllOf(c, size, start, stop) && start % size == 0 && Natural(j, Issued(events), edge, bulk)
    requires
      || (size == bulk && AlignUp(j.address, bulk) <= start && stop <= AlignDown(j.End(), bulk))
      || (size == edge && (stop <= AlignUp(j.address, bulk) || AlignDown(j.End(), bulk) <= start))
    ensures Natural(j, Issued(events + [Issue(c)]), edge, bulk)
  {
    EventAdded(events, Issue(c));
  }

  // ---------------------------------------------------------------- arithmetic of the loops

  lemma WidthsPositive(edge: nat, bulk: nat)
    requires Widths(edge, bulk)
    ensures edge > 0 && bulk > 0 && Width(edge) && Width(bulk) && bulk % edge == 0
  {
  }

  lemma OneMoreStep(i: nat, count: nat, size: nat)
    requires i < count
    ensures (i + 1) * size == i * size + size <= count * size
  {
    MulLe(size, i + 1, count);
  }

  lemma NextAligned(x: nat, s: nat)
    requires s > 0
    ensures (x + s) % s == x % s
  {
    MultipleMod(1, s);
    ModShift(s, x, s);
  }

  /** Before the first bulk boundary there is room for one more edge, if the start lies on an edge. */
  lemma HeadStep(address: nat, pos: nat, edge: nat, bulk: nat)
    requires edge > 0 && bulk > 0 && bulk % edge == 0 && pos % bulk != 0 && pos % edge == address % edge
    requires address % edge == 0 ==> address <= pos <= AlignUp(address, bulk)
    ensures (pos + edge) % edge == address % edge
    ensures address % edge == 0 ==> pos + edge <= AlignUp(address, bulk)
  {
    NextAligned(pos, edge);
    if address % edge == 0 {
      var up := AlignUp(address, bulk);
      UpMultiple(address, bulk);
      ModTrans(up, edge, bulk);
      MultiplesApart(pos, up, edge);
    }
  }

  lemma UpMultiple(x: nat, s: nat)
    requires s > 0
    ensures AlignUp(x, s) % s == 0
  {
    AlignDownMultiple(x, s);
    if x % s != 0 { NextAligned(AlignDown(x, s), s); }
  }

  /** The loop only ends on the first bulk boundary. */
  lemma HeadEnd(address: nat, pos: nat, edge: nat, bulk: nat)
    requires edge > 0 && bulk > 0 && bulk % edge == 0
    requires pos % bulk == 0 && pos % edge == address % edge && address <= pos
    requires address % edge == 0 ==> pos <= AlignUp(address, bulk)
    ensures address % edge == 0 && pos == AlignUp(address, bulk)
  {
    ModTrans(pos, edge, bulk);
    UpMultiple(address, bulk);
    if pos < AlignUp(address, bulk) { MultiplesApart(pos, AlignUp(address, bulk), bulk); }
  }

  lemma BulkStarts(pos: nat, end: nat, bulk: nat)
    requires bulk > 0 && pos % bulk == 0 && pos <= end
    ensures pos <= AlignDown(end, bulk) && AlignDown(end, bulk) % bulk == 0
  {
    AlignDownMultiple(end, bulk);
    if AlignDown(end, bulk) < pos { MultiplesApart(AlignDown(end, bulk), pos, bulk); }
  }

  lemma BulkStep(pos: nat, end: nat, bulk: nat, step: nat)
    requires bulk > 0 && pos % bulk == 0 && end % bulk == 0 && pos < end && step == (end - pos) / bulk
    ensures step >= 1 && pos + step * bulk == end
  {
    var p, q := pos / bulk, end / bulk;
    assert pos == p * bulk && end == q * bulk;
    assert end - pos == (q - p) * bulk;
    Scale(q - p, bulk);
    DivMod(end - pos, bulk, q - p, 0);
  }

  lemma BulkPart(pos: nat, end: nat, bulk: nat, step: nat)
    requires bulk > 0 && pos % bulk == 0 && pos < end && 1 <= step <= (end - pos) / bulk && end % bulk == 0
    ensures pos + step * bulk <= end && (pos + step * bulk) % bulk == 0 && step * bulk >= 1
  {
    BulkStep(pos, end, bulk, (end - pos) / bulk);
    MulLe(bulk, step, (end - pos) / bulk);
    MultipleMod(step, bulk);
    ModShift(pos, step * bulk, bulk);
    Scale(step, bulk);
  }

  lemma TailStep(pos: nat, end: nat, edge: nat)
    requires edge > 0 && pos % edge == 0 && pos < end
    ensures end % edge == 0 ==> pos + edge <= end
  {
    if end % edge == 0 { MultiplesApart(pos, end, edge); }
  }

  lemma BulkIsEdge(end: nat, edge: nat, bulk: nat)
    requires edge > 0 && bulk > 0 && bulk % edge == 0
    ensures AlignDown(end, bulk) % edge == 0
  {
    AlignDownMultiple(end, bulk);
    ModTrans(AlignDown(end, bulk), edge, bulk);
  }

  lemma EndIsEdge(address: nat, length: nat, edge: nat)
    requires edge > 0 && address % edge == 0
    ensures (address + length) % edge == 0 <==> length % edge == 0
  {
    ModShift(address, length, edge);
  }
}
