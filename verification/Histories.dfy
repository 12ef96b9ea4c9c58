/** The event history: a ring of any size that keeps the newest entries of the subsystems that are enabled. */
module Histories {
  import opened Rings

  const NOVAL: bv8 := 0xff

  datatype HistItem = HistItem(timeStamp: nat, message: string, associatedData: bv8)

  /** A line that `hist_print` puts out. */
  datatype Line = Line(time: nat, message: string, data: bv8, hasData: bool)

  function LineOf(item: HistItem): Line
  {
    Line(item.timeStamp / 1000, item.message, item.associatedData, item.associatedData != NOVAL)
  }

  function LinesOf(items: seq<HistItem>): (lines: seq<Line>)
    ensures |lines| == |items|
    ensures forall i | 0 <= i < |items| :: lines[i] == LineOf(items[i])
  {
    if items == [] then [] else [LineOf(items[0])] + LinesOf(items[1..])
  }

  predicate Enabled(subsystem: bv32, mask: bv32) { subsystem & mask != 0 }

  lemma EnabledMore(s: bv32, mask: bv32, bit: bv32)
    ensures Enabled(s, mask | bit) <==> Enabled(s, mask) || Enabled(s, bit)
  {
    assert s & (mask | bit) == (s & mask) | (s & bit);
  }

  lemma EnabledLess(s: bv32, mask: bv32, bit: bv32)
    ensures !Enabled(bit, mask & !bit)
    ensures !Enabled(s, bit) ==> (Enabled(s, mask & !bit) <==> Enabled(s, mask))
  {
    NoneOfBit(mask, bit);
    if !Enabled(s, bit) { OthersKept(s, mask, bit); }
  }

  lemma NoneOfBit(mask: bv32, bit: bv32)
    ensures bit & (mask & !bit) == 0
  {
  }

  lemma OthersKept(s: bv32, mask: bv32, bit: bv32)
    requires s & bit == 0
    ensures s & (mask & !bit) == s & mask
  {
  }

  class History {
    const buf: array<HistItem>
    var idx: nat
    var start: nat
    var enabled: bv32
    ghost var logged: seq<HistItem>     // everything logged since the start

    /** The ring holds the newest entries: one less than it has slots. */
    ghost predicate Valid()
      reads this, buf
    {
      && buf.Length >= 2 && idx < buf.Length && start < buf.Length
      && Held(buf[..], start, idx) == Newest(logged, buf.Length - 1)
    }

    /** `hist_init`, up to the entry that it logs. */
    constructor (size: nat, mask: bv32)
      requires size >= 2
      ensures Valid() && fresh(buf) && buf.Length == size && enabled == mask && logged == []
    {
      buf := new HistItem[size](i => HistItem(0, "", 0));
      idx, start, enabled, logged := 0, 0, mask, [];
    }

    /** `hist_enableSubsystem`. */
    method EnableSubsystem(bit: bv32)
      requires Valid()
      modifies this`enabled
      ensures Valid() && forall s: bv32 :: Enabled(s, enabled) <==> Enabled(s, old(enabled)) || Enabled(s, bit)
      ensures enabled == old(enabled) | bit
    {
      forall s: bv32 { EnabledMore(s, enabled, bit); }
      enabled := enabled | bit;
    }

    /** `hist_disableSubsystem`. */
    method DisableSubsystem(bit: bv32)
      requires Valid()
      modifies this`enabled
      ensures Valid() && !Enabled(bit, enabled)
      ensures forall s: bv32 | !Enabled(s, bit) :: Enabled(s, enabled) <==> Enabled(s, old(enabled))
      ensures enabled == old(enabled) & !bit
    {
      forall s: bv32 { EnabledLess(s, enabled, bit); }
      enabled := enabled & !bit;
    }

    /** `hist_addx`; `tick` is what `getTick` gives back. */
    method AddX(subsystem: bv32, msg: string, data: bv8, tick: nat)
      requires Valid()
      modifies this`idx, this`start, this`logged, buf
      ensures Valid()
      ensures logged == old(logged) + if subsystem & enabled != 0 then [HistItem(tick, msg, data)] else []
    {
      hide Valid;
      if subsystem & enabled != 0 {
        Store(HistItem(tick, msg, data));
      }
    }

    method Store(item: HistItem)
      requires Valid()
      modifies this`idx, this`start, this`logged, buf
      ensures Valid() && logged == old(logged) + [item]
    {
      hide Newest;
      FullMeans(buf[..], start, idx);
      NextIs(idx, buf.Length);
      NextIs(start, buf.Length);
      NewestMore(logged, buf.Length - 1, item);
      ghost var before := buf[..];
      ghost var at := idx;
      buf[idx] := item;
      assert buf[..] == before[at := item];
      idx := idx + 1;
      if idx >= buf.Length {
        idx := 0;
      }
      if idx == start {
        PushOver(before, start, at, item);
        start := start + 1;
        if start >= buf.Length {
          start := 0;
        }
      } else {
        Push(before, start, at, item);
      }
      logged := logged + [item];
    }

    /** `hist_print`: the newest entries, oldest first. */
    method Print() returns (lines: seq<Line>)
      requires Valid()
      ensures |lines| == if |logged| < buf.Length then |logged| else buf.Length - 1
      ensures forall i | 0 <= i < |lines| :: Shows(lines[i], logged[|logged| - |lines| + i])
    {
      hide Shows, LinesOf, Newest;
      lines := AllLines();
      LinesAre(logged, buf.Length - 1);
    }

    method AllLines() returns (lines: seq<Line>)
      requires Valid()
      ensures lines == LinesOf(Newest(logged, buf.Length - 1)) && buf.Length >= 2
    {
      hide Newest, LinesOf;
      ghost var all := Held(buf[..], start, idx);
      ghost var n := 0;
      lines := [];
      NoLines();
      var i: nat := start;
      while i != idx
        invariant i < buf.Length && n <= |all|
        invariant Held(buf[..], i, idx) == all[n..]
        invariant lines == LinesOf(all[..n])
        decreases |all| - n
      {
        OneLine(buf[..], i, idx, all, n);
        lines := lines + [LineOf(buf[i])];
        n := n + 1;
        i := i + 1;
        if i >= buf.Length {
          i := 0;
        }
      }
      FullMeans(buf[..], i, idx);
      assert all[..n] == all;
    }
  }

  /** The line has the time of the entry in milliseconds, its message, and its data unless that is 0xff. */
  predicate Shows(line: Line, item: HistItem)
  {
    && line.time == item.timeStamp / 1000 && line.message == item.message
    && line.data == item.associatedData && (line.hasData <==> item.associatedData != 0xff)
  }

  lemma LinesAre(logged: seq<HistItem>, n: nat)
    ensures var lines := LinesOf(Newest(logged, n));
      && |lines| == (if |logged| <= n then |logged| else n)
      && forall i | 0 <= i < |lines| :: Shows(lines[i], logged[|logged| - |lines| + i])
  {
    var lines, held := LinesOf(Newest(logged, n)), Newest(logged, n);
    forall i | 0 <= i < |lines|
      ensures Shows(lines[i], logged[|logged| - |lines| + i])
    {
      assert lines[i] == LineOf(held[i]) && held[i] == logged[|logged| - |lines| + i];
    }
  }

  lemma NoLines()
    ensures LinesOf([]) == []
  {
  }

  lemma OneLine(data: seq<HistItem>, i: nat, idx: nat, all: seq<HistItem>, n: nat)
    requires |data| >= 2 && i < |data| && idx < |data| && i != idx && n <= |all| && Held(data, i, idx) == all[n..]
    ensures n < |all| && Held(data, if i + 1 >= |data| then 0 else i + 1, idx) == all[n + 1..]
    ensures LinesOf(all[..n + 1]) == LinesOf(all[..n]) + [LineOf(data[i])]
  {
    hide LinesOf, LineOf;
    FullMeans(data, i, idx);
    Pop(data, i, idx);
    NextIs(i, |data|);
    assert data[i] == all[n..][0] == all[n];
    assert all[n..][1..] == all[n + 1..];
    LinesMore(all, n);
  }

  lemma {:induction false} LinesMore(items: seq<HistItem>, n: nat)
    requires n < |items|
    ensures LinesOf(items[..n + 1]) == LinesOf(items[..n]) + [LineOf(items[n])]
  {
  }
}
