/** The scheduler period measurement: a running average in integer arithmetic and a running maximum. */
module SchedPeriods {

  /** One update of a running average over `count` earlier samples. */
  function Update(average: nat, count: nat, value: nat): nat
  {
    (value + average * count) / (count + 1)
  }

  /** The average as it is kept, one sample after the other. */
  function Average(samples: seq<nat>): nat
  {
    if samples == [] then 0
    else var n := |samples| - 1; Update(Average(samples[..n]), n, samples[n])
  }

  function Sum(samples: seq<nat>): nat
  {
    if samples == [] then 0 else var n := |samples| - 1; Sum(samples[..n]) + samples[n]
  }

  /** What one division loses. */
  lemma UpdateLoses(average: nat, count: nat, value: nat)
    ensures var a := Update(average, count, value);
      a * (count + 1) <= value + average * count <= a * (count + 1) + count
  {
    var d := count + 1;
    var x := value + average * count;
    assert x == x / d * d + x % d;
  }

  /** The kept average is at most the true mean, and below it by no more than (n - 1) / 2. */
  lemma {:induction false} AverageNearMean(samples: seq<nat>)
    ensures var n := |samples|;
      && Average(samples) * n <= Sum(samples)
      && 2 * Sum(samples) <= 2 * (Average(samples) * n) + n * (n - 1)
  {
    if samples != [] {
      var n := |samples| - 1;
      AverageNearMean(samples[..n]);
      UpdateLoses(Average(samples[..n]), n, samples[n]);
      Squares(n);
    }
  }

  lemma Squares(n: nat)
    ensures (n + 1) * n == n * (n - 1) + 2 * n
  {
  }

  /** The kept average is at least as large as every lower bound of the samples, and at most every upper bound. */
  lemma {:induction false} AverageWithin(samples: seq<nat>, low: nat, high: nat)
    requires samples != [] && forall i | 0 <= i < |samples| :: low <= samples[i] <= high
    ensures low <= Average(samples) <= high
  {
    var n := |samples| - 1;
    if n == 0 {
      assert Average(samples[..0]) == 0;
      assert Average(samples) == Update(0, 0, samples[0]);
    } else {
      AverageWithin(samples[..n], low, high);
      var a := Average(samples[..n]);
      UpdateLoses(a, n, samples[n]);
      Between(a, n, samples[n], Update(a, n, samples[n]), low, high);
    }
  }

  lemma MulLe(a: int, b: int, c: nat)
    ensures a <= b ==> a * c <= b * c
  {
  }

  lemma Expand(a: int, n: int)
    ensures (a + 1) * (n + 1) == a * (n + 1) + n + 1 == a * n + a + n + 1
  {
  }

  lemma Between(a: nat, n: nat, v: nat, u: nat, low: nat, high: nat)
    requires low <= a <= high && low <= v <= high && u * (n + 1) <= v + a * n <= u * (n + 1) + n
    ensures low <= u <= high
  {
    NotBelow(a, n, v, u, low);
    NotAbove(a, n, v, u, high);
  }

  lemma NotBelow(a: nat, n: nat, v: nat, u: nat, low: nat)
    requires low <= a && low <= v && v + a * n <= u * (n + 1) + n
    ensures low <= u
  {
    MulLe(low, a, n);
    MulLe(u + 1, low, n + 1);
    Expand(u, n);
    Expand(low - 1, n);
  }

  lemma NotAbove(a: nat, n: nat, v: nat, u: nat, high: nat)
    requires a <= high && v <= high && u * (n + 1) <= v + a * n
    ensures u <= high
  {
    MulLe(a, high, n);
    MulLe(high + 1, u, n + 1);
    Expand(high, n);
  }

  /** The samples of the IO actions that came with a known exit time. */
  function Known(known: seq<bool>): nat
  {
    if known == [] then 0 else var n := |known| - 1; Known(known[..n]) + if known[n] then 1 else 0
  }

  /** The average of the IO actions as it is kept: a sample without a known exit time is averaged in but not counted. */
  function IoAverage(samples: seq<nat>, known: seq<bool>): nat
    requires |samples| == |known|
  {
    if samples == [] then 0
    else
      var n := |samples| - 1;
      Update(IoAverage(samples[..n], known[..n]), Known(known[..n]), samples[n])
  }

  lemma IoAverageMore(samples: seq<nat>, known: seq<bool>, v: nat, k: bool)
    requires |samples| == |known|
    ensures IoAverage(samples + [v], known + [k]) == Update(IoAverage(samples, known), Known(known), v)
    ensures Known(known + [k]) == Known(known) + if k then 1 else 0
  {
    hide Update;
    assert (samples + [v])[..|samples|] == samples && (known + [k])[..|known|] == known;
  }

  /** Before the first known exit time every sample overwrites the one before. */
  lemma {:induction false} NoneKnown(known: seq<bool>)
    requires forall i | 0 <= i < |known| :: !known[i]
    ensures Known(known) == 0
  {
    if known != [] { NoneKnown(known[..|known| - 1]); }
  }

  /** If the exit time is unknown at first and known from measurement `m` on, as it is in an undisturbed run,
      the IO average is the running average of the samples from `m` on; what was measured before is overwritten. */
  lemma {:induction false} IoAverageOfRest(samples: seq<nat>, known: seq<bool>, m: nat)
    requires |samples| == |known| > 0 && m <= |known|
    requires forall i | 0 <= i < |known| :: known[i] <==> m <= i
    ensures Known(known) == |known| - m
    ensures IoAverage(samples, known) == if m < |samples| then Average(samples[m..]) else samples[m - 1]
  {
    hide Update;
    var n := |samples| - 1;
    var s, k := samples[..n], known[..n];
    if m >= n {
      NoneKnown(k);
      FirstUpdate(IoAverage(s, k), samples[n]);
      if m == n { OneSample(samples[n]); assert samples[n..] == [samples[n]]; }
      if m > n { NoneKnown(known); }
    } else {
      IoAverageOfRest(s, k, m);
      assert samples[m..][..n - m] == s[m..] && samples[m..][n - m] == samples[n];
    }
  }

  lemma FirstUpdate(average: nat, value: nat)
    ensures Update(average, 0, value) == value
  {
  }

  lemma OneSample(value: nat)
    ensures Average([value]) == value
  {
    assert [value][..0] == [];
  }

  ghost predicate IsMax(m: nat, samples: seq<nat>)
  {
    (forall i | 0 <= i < |samples| :: samples[i] <= m) && (m in samples || (m == 0 && samples == []))
  }

  lemma MaxMore(m: nat, samples: seq<nat>, v: nat)
    requires IsMax(m, samples)
    ensures IsMax(if v > m then v else m, samples + [v])
  {
    var s := samples + [v];
    assert s[|samples|] == v;
    if m in samples { assert m in s; }
  }

  lemma AverageMore(samples: seq<nat>, v: nat)
    ensures Average(samples + [v]) == Update(Average(samples), |samples|, v)
  {
    hide Update;
    assert (samples + [v])[..|samples|] == samples;
  }

  /** The measured periods.  The samples are what the two averages and maxima have been computed from. */
  class Meter {
    var enabled: bool
    var count: nat
    var avgIo: nat
    var maxIo: nat
    var avgMain: nat
    var maxMain: nat
    ghost var ioSamples: seq<nat>
    ghost var ioKnown: seq<bool>          // whether the exit time was known when they were taken
    ghost var mainSamples: seq<nat>

    ghost predicate Valid()
      reads this
    {
      && count == |mainSamples| == Known(ioKnown) && avgMain == Average(mainSamples)
      && |ioSamples| == |ioKnown| && avgIo == IoAverage(ioSamples, ioKnown)
      && IsMax(maxMain, mainSamples) && IsMax(maxIo, ioSamples)
    }

    /** `initMsrTaskSchedPeriod`. */
    constructor ()
      ensures Valid() && enabled && ioSamples == [] && mainSamples == [] && ioKnown == []
    {
      enabled, count, avgIo, maxIo, avgMain, maxMain := true, 0, 0, 0, 0, 0;
      ioSamples, ioKnown, mainSamples := [], [], [];
    }

    /** `doMsrTaskSchedPeriod`: `exit` is 0 if the last end of the tasks is not known; then the main loop gets no
        sample, and the next sample of the tasks is weighed as if this one had not been. */
    method Measure(now: nat, entry: nat, exit: nat)
      requires Valid() && entry <= now && exit <= now
      modifies this
      ensures Valid() && enabled == old(enabled)
      ensures ioSamples == old(ioSamples) + if enabled then [now - entry] else []
      ensures ioKnown == old(ioKnown) + if enabled then [exit != 0] else []
      ensures mainSamples == old(mainSamples) + if enabled && exit != 0 then [now - exit] else []
    {
      hide Update, Average, IoAverage, Known, IsMax;
      if !enabled { return; }
      var value := now - entry;
      IoAverageMore(ioSamples, ioKnown, value, exit != 0);
      avgIo := Update(avgIo, count, value);
      MaxMore(maxIo, ioSamples, value);
      if value > maxIo { maxIo := value; }
      ioSamples, ioKnown := ioSamples + [value], ioKnown + [exit != 0];
      if exit != 0 {
        value := now - exit;
        AverageMore(mainSamples, value);
        avgMain := Update(avgMain, count, value);
        MaxMore(maxMain, mainSamples, value);
        if value > maxMain { maxMain := value; }
        mainSamples := mainSamples + [value];
        count := count + 1;
      }
    }
  }
}
