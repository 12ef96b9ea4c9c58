/** Grouping a stream of words into one bus cycle per page, skipping the leading blank words of each page. */
module Pages {
  import opened Align

  /** The first position of `[from, stop)` that is not blank, or `stop`. */
  function FirstData(blank: seq<bool>, from: nat, stop: nat): (f: nat)
    requires from <= stop <= |blank|
    ensures from <= f <= stop
    ensures forall w | from <= w < f :: blank[w]
    ensures f < stop ==> !blank[f]
    decreases |blank| - from
  {
    if from == stop then stop else if !blank[from] then from else FirstData(blank, from + 1, stop)
  }

  /** The cycles for the pages of `n` words before word `stop`: one for each page that holds data,
      from its first data word to its end. */
  function PageCycles<T>(ops: seq<T>, blank: seq<bool>, n: nat, stop: nat): seq<seq<T>>
    requires n > 0 && stop <= |ops| == |blank|
  {
    if stop < n then [] else
    var first := FirstData(blank, stop - n, stop);
    var before := PageCycles(ops, blank, n, stop - n);
    if first == stop then before else before + [ops[first..stop]]
  }

  /** The open cycle, whether leading blanks may still be left out, and the cycles closed so far. */
  datatype Stream<T> = Stream(open: seq<T>, maySkip: bool, log: seq<seq<T>>)

  /** Put a word into the open cycle, and close that if it was the last word of a page. */
  function Append<T>(s: Stream<T>, op: T, last: bool): Stream<T>
  {
    if last then Stream([], true, s.log + [s.open + [op]]) else Stream(s.open + [op], false, s.log)
  }

  /** One word of the loop: leave it out, or put it into the open cycle and close that at the end of a page. */
  function Feed<T>(s: Stream<T>, op: T, blank: bool, last: bool): Stream<T>
  {
    if s.maySkip && blank then s else Append(s, op, last)
  }

  /** In the page starting at `page`, before word `w`, the stream is what the plan says. */
  predicate Traced<T(==)>(ops: seq<T>, blank: seq<bool>, n: nat, page: nat, w: nat, s: Stream<T>)
  {
    && |ops| == |blank| && page <= w <= |ops| && w < page + n
    && s.log == PageCycles(ops, blank, n, page)
    && var first := FirstData(blank, page, w);
       && s.maySkip == (first == w)
       && s.open == ops[first..w]
  }

  lemma {:induction false} FirstDataStep(blank: seq<bool>, from: nat, w: nat)
    requires from <= w < |blank|
    ensures FirstData(blank, from, w + 1)
         == if FirstData(blank, from, w) < w then FirstData(blank, from, w) else if blank[w] then w + 1 else w
    decreases w - from
  {
    if from < w && blank[from] { FirstDataStep(blank, from + 1, w); }
  }

  function NextPage(page: nat, w: nat, n: nat): nat
  {
    if w + 1 == page + n then w + 1 else page
  }

  /** Feeding the words one by one keeps to the plan. */
  lemma FeedTraced<T>(ops: seq<T>, blank: seq<bool>, n: nat, page: nat, w: nat, s: Stream<T>)
    requires Traced(ops, blank, n, page, w, s) && w < |ops|
    ensures Traced(ops, blank, n, NextPage(page, w, n), w + 1, Feed(s, ops[w], blank[w], w + 1 == page + n))
  {
    FirstDataStep(blank, page, w);
    var first := FirstData(blank, page, w);
    assert ops[first..w + 1] == ops[first..w] + [ops[w]];
  }

  /** The stream after the first `w` words, a page ending at every multiple of `n`. */
  function FeedMany<T>(ops: seq<T>, blank: seq<bool>, n: nat, w: nat): Stream<T>
    requires n > 0 && w <= |ops| == |blank|
  {
    if w == 0 then Stream([], true, []) else Feed(FeedMany(ops, blank, n, w - 1), ops[w - 1], blank[w - 1], w % n == 0)
  }

  lemma {:induction false} FeedManyTraced<T>(ops: seq<T>, blank: seq<bool>, n: nat, w: nat) returns (page: nat)
    requires n > 0 && w <= |ops| == |blank|
    ensures page % n == 0 && page <= w < page + n && Traced(ops, blank, n, page, w, FeedMany(ops, blank, n, w))
  {
    if w == 0 {
      page := 0;
      MultipleMod(0, n);
    } else {
      var before := FeedManyTraced(ops, blank, n, w - 1);
      NextPageAligned(before, w - 1, n);
      FeedTraced(ops, blank, n, before, w - 1, FeedMany(ops, blank, n, w - 1));
      page := NextPage(before, w - 1, n);
    }
  }

  lemma NextPageAligned(page: nat, w: nat, n: nat)
    requires n > 0 && page % n == 0 && page <= w < page + n
    ensures NextPage(page, w, n) % n == 0 && NextPage(page, w, n) <= w + 1 < NextPage(page, w, n) + n
    ensures (w + 1) % n == 0 <==> w + 1 == page + n
  {
    MultipleMod(1, n);
    ModShift(page, n, n);
    ModShift(page, w + 1 - page, n);
    if w + 1 < page + n { DivMod(w + 1 - page, n, 0, w + 1 - page); }
  }

  /** The whole stream, cut into pages: the planned cycles, and nothing left open. */
  lemma FeedManyPlanned<T>(ops: seq<T>, blank: seq<bool>, n: nat)
    requires n > 0 && |ops| == |blank| && |ops| % n == 0
    ensures FeedMany(ops, blank, n, |ops|) == Stream([], true, PageCycles(ops, blank, n, |ops|))
  {
    var page := FeedManyTraced(ops, blank, n, |ops|);
    if page < |ops| { MultiplesApart(page, |ops|, n); }
  }

  /** One cycle: the words of page `page` from the first one that is not blank to the last. */
  ghost predicate IsPageCycle<T>(ops: seq<T>, blank: seq<bool>, n: nat, page: nat, c: seq<T>)
  {
    && n > 0 && |ops| == |blank| && page % n == 0 && page + n <= |ops|
    && 1 <= |c| <= n
    && var first := page + n - |c|;
       && (forall w | page <= w < first :: blank[w])
       && !blank[first]
       && c == ops[first..page + n]
  }

  ghost predicate BlankPage(blank: seq<bool>, n: nat, page: nat)
  {
    forall w | page <= w < page + n && w < |blank| :: blank[w]
  }

  /** The pages before `stop` that hold data, in order. */
  function DataPages(blank: seq<bool>, n: nat, stop: nat): seq<nat>
    requires n > 0 && stop <= |blank|
  {
    if stop < n then [] else
    var before := DataPages(blank, n, stop - n);
    if FirstData(blank, stop - n, stop) == stop then before else before + [stop - n]
  }

  lemma LastPage<T>(ops: seq<T>, blank: seq<bool>, n: nat, page: nat)
    requires n > 0 && page % n == 0 && page + n <= |ops| == |blank|
    ensures var first := FirstData(blank, page, page + n);
      first < page + n ==> IsPageCycle(ops, blank, n, page, ops[first..page + n])
  {
  }

  /** There is exactly one cycle per data page, in page order, and it is that page's cycle. */
  lemma {:induction false} PageCyclesShape<T>(ops: seq<T>, blank: seq<bool>, n: nat, stop: nat, i: nat)
    requires n > 0 && stop <= |ops| == |blank| && stop % n == 0
    ensures |PageCycles(ops, blank, n, stop)| == |DataPages(blank, n, stop)|
    ensures i < |PageCycles(ops, blank, n, stop)| ==>
      IsPageCycle(ops, blank, n, DataPages(blank, n, stop)[i], PageCycles(ops, blank, n, stop)[i])
  {
    if stop >= n {
      var page := stop - n;
      MultipleMod(1, n);
      ModShift(n, page, n);
      PageCyclesShape(ops, blank, n, page, i);
      LastPage(ops, blank, n, page);
    }
  }

  /** The data pages are the pages that are not blank. */
  lemma {:induction false} DataPagesExact(blank: seq<bool>, n: nat, stop: nat, page: nat)
    requires n > 0 && stop <= |blank| && stop % n == 0
    ensures page in DataPages(blank, n, stop) <==> page < stop && page % n == 0 && !BlankPage(blank, n, page)
  {
    if stop < n {
      DivMod(stop, n, 0, stop);
    } else {
      var last := stop - n;
      MultipleMod(1, n);
      ModShift(n, last, n);
      DataPagesExact(blank, n, last, page);
      if page % n == 0 && page > last { MultiplesApart(last, page, n); }
    }
  }

  lemma {:induction false} DataPagesAscend(blank: seq<bool>, n: nat, stop: nat, i: nat, j: nat)
    requires n > 0 && stop <= |blank| && i < j < |DataPages(blank, n, stop)|
    ensures DataPages(blank, n, stop)[i] + n <= DataPages(blank, n, stop)[j] < stop
  {
    if stop >= n {
      var before := DataPages(blank, n, stop - n);
      if j < |before| {
        DataPagesAscend(blank, n, stop - n, i, j);
      } else {
        DataPagesBelow(blank, n, stop - n, i);
      }
    }
  }

  lemma {:induction false} DataPagesBelow(blank: seq<bool>, n: nat, stop: nat, i: nat)
    requires n > 0 && stop <= |blank| && i < |DataPages(blank, n, stop)|
    ensures DataPages(blank, n, stop)[i] + n <= stop
  {
    if stop >= n && i < |DataPages(blank, n, stop - n)| { DataPagesBelow(blank, n, stop - n, i); }
  }
}
