/** Concrete inputs to `extractRegions` (annotation/app.js:147-209) and what
    the model returns for them. Each input is described by its length and by
    which of its samples are silent; the loud values themselves do not matter. */
module Scenarios {
  import opened Sequences
  import opened Silence
  import opened Segments
  import opened Timing

  /** Forty samples, silent exactly from sample `a` to sample `b`. */
  predicate FortySilentBetween(peaks: seq<real>, a: int, b: int) {
    |peaks| == 40 && forall i :: 0 <= i < 40 ==> (IsSilent(peaks[i]) <==> a <= i <= b)
  }

  /** A ten-second recording of forty quarter-second samples with a
      one-second silence from sample 10 to 13: the silence splits it into a
      leading region from sample 0 to the end of the silence and a region
      from there to the last sample. */
  lemma QuarterSecondRegions(peaks: seq<real>)
    requires FortySilentBetween(peaks, 10, 13)
    ensures IndexRegions(peaks, 1.0) == [Region(0, 13), Region(13, 39)]
  {
    var c := [Region(0, 13), Region(13, 39)];
    assert Candidates(peaks, 1.0) == c by {
      SingleSilenceCandidates(peaks, 10, 13, 1.0);
    }
    FilterAll(c, (g: Region) => (g.end - g.start) as real >= 1.0);
  }

  lemma QuarterSecondTimes()
    ensures ToSpans([Region(0, 13), Region(13, 39)], 0.25) == [Span(0.0, 3.3), Span(3.3, 9.8)]
  {
    assert Round1(Time(0, 0.25)) == 0.0;
    assert Round1(Time(13, 0.25)) == 3.3 by {
      assert 13 as real * 0.25 == 3.25;
      assert (3.25 * 10.0 + 0.5).Floor == 33;
    }
    assert Round1(Time(39, 0.25)) == 9.8 by {
      assert 39 as real * 0.25 == 9.75;
      assert (9.75 * 10.0 + 0.5).Floor == 98;
    }
  }

  /** In seconds the two regions run from 0.0 s to 3.3 s and from 3.3 s to
      9.8 s: each quarter-second sample time is rounded to one decimal. */
  lemma QuarterSecondScenario(peaks: seq<real>)
    requires FortySilentBetween(peaks, 10, 13)
    ensures Extract(peaks, 10.0) == [Span(0.0, 3.3), Span(3.3, 9.8)]
  {
    assert Extract(peaks, 10.0) == ToSpans([Region(0, 13), Region(13, 39)], 0.25) by {
      var coef := 10.0 / |peaks| as real;
      assert coef == 0.25;
      assert MinSeconds / coef == 1.0;
      QuarterSecondRegions(peaks);
    }
    QuarterSecondTimes();
  }

  lemma ShortRecordingTimes(coef: real)
    requires coef == 0.0245
    ensures ToSpans([Region(0, 16), Region(16, 39)], coef) == [Span(0.0, 0.4), Span(0.4, 1.0)]
  {
    assert Round1(Time(0, coef)) == 0.0;
    assert Round1(Time(16, coef)) == 0.4 by {
      assert 16 as real * coef == 0.392;
      assert (0.392 * 10.0 + 0.5).Floor == 4;
    }
    assert Round1(Time(39, coef)) == 1.0 by {
      assert 39 as real * coef == 0.9555;
      assert (0.9555 * 10.0 + 0.5).Floor == 10;
    }
  }

  lemma ShortRecordingRegions(peaks: seq<real>, minLen: real)
    requires FortySilentBetween(peaks, 5, 16)
    requires minLen == MinSeconds / 0.0245
    ensures IndexRegions(peaks, minLen) == [Region(0, 16), Region(16, 39)]
  {
    assert 10.0 < minLen < 11.0;
    var idx := [Region(0, 16), Region(16, 39)];
    assert Candidates(peaks, minLen) == idx by {
      SingleSilenceCandidates(peaks, 5, 16, minLen);
    }
    FilterAll(idx, (g: Region) => (g.end - g.start) as real >= minLen);
  }

  /** A 0.98-second recording of forty samples silent from sample 5 to 16:
      the rounded end of the last region, 1.0 s, lies after the end of the
      recording, because sample 39 starts at 0.9555 s, which rounds up. */
  lemma RoundedEndPastDuration(peaks: seq<real>)
    requires FortySilentBetween(peaks, 5, 16)
    ensures Extract(peaks, 0.98) == [Span(0.0, 0.4), Span(0.4, 1.0)]
    ensures Extract(peaks, 0.98)[1].end > 0.98
  {
    var coef := 0.98 / |peaks| as real;
    assert coef == 0.0245;
    assert Extract(peaks, 0.98) == ToSpans([Region(0, 16), Region(16, 39)], coef) by {
      ShortRecordingRegions(peaks, MinSeconds / coef);
    }
    ShortRecordingTimes(coef);
  }

  /** A recording that is never silent gets no region at all. */
  lemma LoudScenario(peaks: seq<real>, duration: real)
    requires forall i :: 0 <= i < |peaks| ==> !IsSilent(peaks[i])
    ensures Extract(peaks, duration) == []
  {
    if |peaks| > 0 && duration != 0.0 {
      NoSilenceNoRegions(peaks, MinSeconds / (duration / |peaks| as real));
    }
  }
}
