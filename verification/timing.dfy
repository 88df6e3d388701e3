/** The whole of `extractRegions` (annotation/app.js:147-209): the index-space
    regions converted to seconds and rounded to one decimal place.

    Arithmetic is on exact reals. `Math.round(y)` is `floor(y + 0.5)` (halves
    round up), so `Math.round(x * 10) / 10` is `Round1(x)`. */
module Timing {
  import opened Sequences
  import opened Segments

  /** The shortest silence that separates regions, in seconds (app.js:150). */
  const MinSeconds: real := 0.25

  /** `x` rounded to one decimal place. */
  function Round1(x: real): (r: real)
    ensures x - 0.05 < r <= x + 0.05
    ensures x >= 0.0 ==> r >= 0.0
  {
    ((x * 10.0 + 0.5).Floor as real) / 10.0
  }

  /** Rounding never reverses the order of two times. */
  lemma Round1Monotone(x: real, y: real)
    requires x <= y
    ensures Round1(x) <= Round1(y)
  {
    assert (x * 10.0 + 0.5).Floor <= (y * 10.0 + 0.5).Floor;
  }

  /** A region in seconds. */
  datatype Span = Span(start: real, end: real)

  /** The result of `extractRegions(peaks, duration)`.

      With no peaks there is no silent index, so nothing is returned whatever
      `minLen` is (`NoPeaksNoRegions`); the model does not divide by zero to
      find out. With a zero duration `coef` is 0 and JavaScript's `minLen` is
      positive infinity, which no cluster reaches, so again nothing is
      returned. */
  function Extract(peaks: seq<real>, duration: real): seq<Span> {
    if |peaks| == 0 || duration == 0.0 then []
    else
      var coef := duration / |peaks| as real;
      var minLen := MinSeconds / coef;
      ToSpans(IndexRegions(peaks, minLen), coef)
  }

  /** The time in seconds at which sample `i` starts, `coef` being the
      seconds per sample. */
  function Time(i: int, coef: real): real {
    i as real * coef
  }

  /** One index-space region in seconds: both ends rounded to one decimal
      (app.js:204-207). */
  function SpanOf(g: Region, coef: real): Span {
    Span(Round1(Time(g.start, coef)), Round1(Time(g.end, coef)))
  }

  /** Index-space regions converted to seconds (app.js:203-208). */
  function ToSpans(idx: seq<Region>, coef: real): seq<Span> {
    seq(|idx|, k requires 0 <= k < |idx| => SpanOf(idx[k], coef))
  }

  /** An empty peak array yields no index-space region for any `minLen`. */
  lemma NoPeaksNoRegions(minLen: real)
    ensures IndexRegions([], minLen) == []
  {
    NoSilenceNoRegions([], minLen);
  }

  /** Sample times grow with the index and stay below the duration. */
  lemma SampleTime(i: int, j: int, n: int, duration: real)
    requires 0 <= i <= j <= n - 1 && duration > 0.0
    ensures var coef := duration / n as real;
      0.0 <= Time(i, coef) <= Time(j, coef) <= duration - coef < duration
  {
    var coef := duration / n as real;
    assert coef > 0.0;
    assert coef * n as real == duration;
    assert (j as real) * coef <= (n - 1) as real * coef;
    assert (i as real) * coef <= (j as real) * coef;
  }

  /** A region of at least `minLen = MinSeconds / coef` samples lasts at least `MinSeconds`. */
  lemma LongRegionLasts(s: int, e: int, coef: real)
    requires coef > 0.0 && (e - s) as real >= MinSeconds / coef
    ensures Time(e, coef) - Time(s, coef) >= MinSeconds
  {
    assert (e - s) as real * coef >= (MinSeconds / coef) * coef;
    assert (e - s) as real * coef == e as real * coef - s as real * coef;
  }

  /** Two times at least `MinSeconds` apart stay in order after rounding. */
  lemma RoundedGap(x: real, y: real)
    requires y - x >= MinSeconds
    ensures Round1(y) - Round1(x) > MinSeconds - 0.1
  {
  }

  /** One region of at least `minLen` samples, in seconds. */
  lemma SpanBounds(g: Region, n: int, duration: real)
    requires duration > 0.0 && n > 0 && InRange(g, n)
    requires (g.end - g.start) as real >= MinSeconds / (duration / n as real)
    ensures var h := SpanOf(g, duration / n as real);
      0.0 <= h.start < h.end < duration + 0.05 && h.end - h.start > MinSeconds - 0.1
  {
    var coef := duration / n as real;
    SampleTime(g.start, g.end, n, duration);
    LongRegionLasts(g.start, g.end, coef);
    RoundedGap(Time(g.start, coef), Time(g.end, coef));
  }

  /** Every span of a list of long enough in-range regions, in seconds. */
  lemma SpansBounded(idx: seq<Region>, n: int, duration: real)
    requires duration > 0.0 && n > 0
    requires forall k :: 0 <= k < |idx| ==>
      InRange(idx[k], n) && (idx[k].end - idx[k].start) as real >= MinSeconds / (duration / n as real)
    ensures var r := ToSpans(idx, duration / n as real);
      forall k :: 0 <= k < |r| ==>
        0.0 <= r[k].start < r[k].end < duration + 0.05 && r[k].end - r[k].start > MinSeconds - 0.1
  {
    var coef := duration / n as real;
    var r := ToSpans(idx, coef);
    forall k | 0 <= k < |r|
      ensures 0.0 <= r[k].start < r[k].end < duration + 0.05 && r[k].end - r[k].start > MinSeconds - 0.1
    {
      SpanBounds(idx[k], n, duration);
      assert r[k] == SpanOf(idx[k], coef);
    }
  }

  /** For a non-negative duration every returned span starts at or after 0, ends
      after it starts (by more than `MinSeconds` less two half-tenths of
      rounding), and ends less than 0.05 s after the audio does. */
  lemma ExtractSpans(peaks: seq<real>, duration: real)
    requires duration >= 0.0
    ensures forall k :: 0 <= k < |Extract(peaks, duration)| ==>
      var g := Extract(peaks, duration)[k];
      0.0 <= g.start < g.end < duration + 0.05 && g.end - g.start > MinSeconds - 0.1
  {
    if |peaks| > 0 && duration > 0.0 {
      var n := |peaks|;
      var coef := duration / n as real;
      IndexRegionsBounded(peaks, MinSeconds / coef);
      SpansBounded(IndexRegions(peaks, MinSeconds / coef), n, duration);
    }
  }

  /** Later samples start no earlier. */
  lemma TimeMonotone(i: int, j: int, coef: real)
    requires i <= j && coef >= 0.0
    ensures Time(i, coef) <= Time(j, coef)
  {
    assert j as real * coef - i as real * coef == (j - i) as real * coef;
  }

  /** A region that ends before another starts still does so in seconds. */
  lemma SpanOfOrdered(a: Region, b: Region, coef: real)
    requires coef >= 0.0 && Precedes(a, b)
    ensures SpanOf(a, coef).end <= SpanOf(b, coef).start
  {
    TimeMonotone(a.end, b.start, coef);
    Round1Monotone(Time(a.end, coef), Time(b.start, coef));
  }

  /** Converting to seconds keeps regions that follow each other in order. */
  lemma SpansOrdered(idx: seq<Region>, n: int, duration: real)
    requires duration >= 0.0 && n > 0
    requires forall k :: 0 <= k < |idx| ==> InRange(idx[k], n)
    requires Pairwise(idx, Precedes)
    ensures var r := ToSpans(idx, duration / n as real);
      forall i, j :: 0 <= i < j < |r| ==> r[i].end <= r[j].start
  {
    var coef := duration / n as real;
    var r := ToSpans(idx, coef);
    forall i, j | 0 <= i < j < |r| ensures r[i].end <= r[j].start {
      assert Precedes(idx[i], idx[j]);
      SpanOfOrdered(idx[i], idx[j], coef);
      assert r[i] == SpanOf(idx[i], coef) && r[j] == SpanOf(idx[j], coef);
    }
  }

  /** For a non-negative duration the spans keep the order of the index-space
      regions: each ends no later than every later one starts, and the
      starts strictly increase. */
  lemma ExtractOrdered(peaks: seq<real>, duration: real)
    requires duration >= 0.0
    ensures forall i, j :: 0 <= i < j < |Extract(peaks, duration)| ==>
      Extract(peaks, duration)[i].end <= Extract(peaks, duration)[j].start
    ensures forall i, j :: 0 <= i < j < |Extract(peaks, duration)| ==>
      Extract(peaks, duration)[i].start < Extract(peaks, duration)[j].start
  {
    if |peaks| > 0 && duration > 0.0 {
      var n := |peaks|;
      var coef := duration / n as real;
      IndexRegionsBounded(peaks, MinSeconds / coef);
      IndexRegionsOrdered(peaks, MinSeconds / coef);
      SpansOrdered(IndexRegions(peaks, MinSeconds / coef), n, duration);
      ExtractSpans(peaks, duration);
      var r := Extract(peaks, duration);
      forall i, j | 0 <= i < j < |r| ensures r[i].start < r[j].start {
        assert r[i].start < r[i].end;
      }
    }
  }
}
