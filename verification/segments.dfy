/** Steps three to six of `extractRegions` (annotation/app.js:174-200): the
    index-space regions proposed between qualifying silences.

    `minLen` is the minimum silence length in samples, `minSeconds / coef`
    at app.js:154. It is a real number, and the comparisons of integer
    counts and differences against it are made on reals, as JavaScript does. */
module Segments {
  import opened Sequences
  import opened Silence
  import opened Clustering

  /** A region with bounds given as peak indices. */
  datatype Region = Region(start: int, end: int)

  /** Clusters at least `minLen` samples long (app.js:175-177). */
  function Retained(cs: seq<seq<int>>, minLen: real): (r: seq<seq<int>>)
    ensures forall k :: 0 <= k < |r| ==> |r[k]| as real >= minLen
    ensures forall k :: 0 <= k < |r| ==> r[k] in cs
    ensures forall k :: 0 <= k < |cs| && |cs[k]| as real >= minLen ==> cs[k] in r
    ensures Subseq(r, cs)
  {
    Filter(cs, (c: seq<int>) => |c| as real >= minLen)
  }

  /** Every cluster at least `minLen` long is kept as often as it occurs,
      and no other cluster is kept. */
  lemma RetainedCounts(cs: seq<seq<int>>, minLen: real)
    ensures forall c :: multiset(Retained(cs, minLen))[c] ==
                        if |c| as real >= minLen then multiset(cs)[c] else 0
  {
    FilterMultiset(cs, (c: seq<int>) => |c| as real >= minLen);
  }

  /** The regions "on the edges of silences" (app.js:180-186): region `i`
      starts where retained cluster `i` ends and stops where cluster `i + 1`
      starts, or at the last sample index for the final cluster. */
  function EdgeRegions(kept: seq<seq<int>>, length: int): (r: seq<Region>)
    requires forall i :: 0 <= i < |kept| ==> |kept[i]| > 0
    ensures |r| == |kept|
    ensures forall i :: 0 <= i < |r| ==> r[i].start == Last(kept[i])
    ensures forall i :: 0 <= i < |r| - 1 ==> r[i].end == First(kept[i + 1])
    ensures |r| > 0 ==> r[|r| - 1].end == length - 1
  {
    if |kept| == 0 then []
    else if |kept| == 1 then [Region(Last(kept[0]), length - 1)]
    else [Region(Last(kept[0]), First(kept[1]))] + EdgeRegions(kept[1..], length)
  }

  /** Whether the first retained cluster leaves audio before it (app.js:189-190). */
  predicate HasLeading(kept: seq<seq<int>>)
    requires forall i :: 0 <= i < |kept| ==> |kept[i]| > 0
  {
    |kept| > 0 && First(kept[0]) != 0
  }

  /** The region list after the optional leading region is put in front (app.js:189-195). */
  function WithLeading(kept: seq<seq<int>>, regions: seq<Region>): seq<Region>
    requires forall i :: 0 <= i < |kept| ==> |kept[i]| > 0
  {
    if HasLeading(kept) then [Region(0, Last(kept[0]))] + regions else regions
  }

  /** Regions at least `minLen` samples long (app.js:198-200). */
  function KeepRegions(rs: seq<Region>, minLen: real): (r: seq<Region>)
    ensures forall k :: 0 <= k < |r| ==> (r[k].end - r[k].start) as real >= minLen
    ensures forall k :: 0 <= k < |r| ==> r[k] in rs
    ensures forall k :: 0 <= k < |rs| && (rs[k].end - rs[k].start) as real >= minLen ==> rs[k] in r
    ensures Subseq(r, rs)
  {
    Filter(rs, (g: Region) => (g.end - g.start) as real >= minLen)
  }

  /** Every region at least `minLen` long is kept as often as it occurs,
      and no other region is kept. */
  lemma KeepRegionsCounts(rs: seq<Region>, minLen: real)
    ensures forall g :: multiset(KeepRegions(rs, minLen))[g] ==
                        if (g.end - g.start) as real >= minLen then multiset(rs)[g] else 0
  {
    FilterMultiset(rs, (g: Region) => (g.end - g.start) as real >= minLen);
  }

  /** The retained silence clusters of a peak array. */
  function Kept(peaks: seq<real>, minLen: real): (r: seq<seq<int>>)
    ensures forall i :: 0 <= i < |r| ==> |r[i]| > 0
  {
    var cs := Clusters(Silences(peaks));
    var r := Retained(cs, minLen);
    assert forall i :: 0 <= i < |r| ==> |r[i]| > 0 by {
      forall i | 0 <= i < |r| ensures |r[i]| > 0 {
        var j :| 0 <= j < |cs| && cs[j] == r[i];
      }
    }
    r
  }

  /** The regions before the length filter. */
  function Candidates(peaks: seq<real>, minLen: real): seq<Region> {
    var kept := Kept(peaks, minLen);
    WithLeading(kept, EdgeRegions(kept, |peaks|))
  }

  /** The index-space result of `extractRegions`, before the conversion to seconds. */
  function IndexRegions(peaks: seq<real>, minLen: real): seq<Region> {
    KeepRegions(Candidates(peaks, minLen), minLen)
  }

  /** Each region lies inside the sample range and does not run backwards. */
  predicate InRange(g: Region, length: int) {
    0 <= g.start <= g.end <= length - 1
  }

  /** A region ends no later than the next one begins. */
  predicate Precedes(a: Region, b: Region) {
    a.end <= b.start
  }

  /** The retained clusters are sorted runs of silent indices inside the peak
      array, each at least `minLen` long, taken in order from the clusters. */
  lemma KeptSortedRuns(peaks: seq<real>, minLen: real)
    ensures SortedRuns(Kept(peaks, minLen))
    ensures forall i :: 0 <= i < |Kept(peaks, minLen)| ==>
      |Kept(peaks, minLen)[i]| as real >= minLen
      && 0 <= First(Kept(peaks, minLen)[i]) && Last(Kept(peaks, minLen)[i]) < |peaks|
    ensures Subseq(Kept(peaks, minLen), Clusters(Silences(peaks)))
  {
    var s := Silences(peaks);
    var cs := Clusters(s);
    var kept := Kept(peaks, minLen);
    ClustersSorted(s);
    ClustersBounded(s);
    var rel := (a: seq<int>, b: seq<int>) => |a| > 0 && |b| > 0 && Last(a) + 1 < First(b);
    assert Pairwise(cs, rel);
    FilterPairwise(cs, (c: seq<int>) => |c| as real >= minLen, rel);
    forall i | 0 <= i < |kept|
      ensures IsRun(kept[i]) && 0 <= First(kept[i]) && Last(kept[i]) < |peaks|
    {
      var j :| 0 <= j < |cs| && cs[j] == kept[i];
    }
    forall i, j | 0 <= i < j < |kept| ensures Last(kept[i]) + 1 < First(kept[j]) {
      assert rel(kept[i], kept[j]);
    }
  }

  /** The shape of the retained clusters that the region stages rely on:
      sorted runs inside the sample range. */
  predicate KeptShape(kept: seq<seq<int>>, length: int) {
    && SortedRuns(kept)
    && (forall i :: 0 <= i < |kept| ==> 0 <= First(kept[i]) && Last(kept[i]) < length)
  }

  lemma RunsNonDecreasing(kept: seq<seq<int>>)
    requires SortedRuns(kept)
    ensures forall i :: 0 <= i < |kept| ==> First(kept[i]) <= Last(kept[i])
  {
    forall i | 0 <= i < |kept| ensures First(kept[i]) <= Last(kept[i]) {
      assert IsRun(kept[i]);
    }
  }

  lemma EdgeRegionsInRange(kept: seq<seq<int>>, length: int)
    requires KeptShape(kept, length)
    ensures forall k :: 0 <= k < |EdgeRegions(kept, length)| ==> InRange(EdgeRegions(kept, length)[k], length)
    ensures forall k :: 0 <= k < |kept| - 1 ==> EdgeRegions(kept, length)[k].start < EdgeRegions(kept, length)[k].end
  {
    var edges := EdgeRegions(kept, length);
    RunsNonDecreasing(kept);
    forall k | 0 <= k < |edges|
      ensures InRange(edges[k], length)
      ensures k < |kept| - 1 ==> edges[k].start < edges[k].end
    {
      if k < |edges| - 1 {
        assert Last(kept[k]) + 1 < First(kept[k + 1]);
        assert edges[k].end == First(kept[k + 1]);
      } else {
        assert edges[k].end == length - 1;
      }
    }
  }

  lemma EdgeRegionsPrecede(kept: seq<seq<int>>, length: int)
    requires KeptShape(kept, length)
    ensures Pairwise(EdgeRegions(kept, length), Precedes)
    ensures forall k :: 0 <= k < |kept| ==> Last(kept[0]) <= EdgeRegions(kept, length)[k].start
  {
    var edges := EdgeRegions(kept, length);
    RunsNonDecreasing(kept);
    forall i, j | 0 <= i < j < |edges| ensures Precedes(edges[i], edges[j]) {
      assert edges[i].end == First(kept[i + 1]);
      assert edges[j].start == Last(kept[j]);
      if i + 1 < j {
        assert Last(kept[i + 1]) + 1 < First(kept[j]);
      }
    }
    forall k | 0 < k < |kept| ensures Last(kept[0]) <= edges[k].start {
      assert Last(kept[0]) + 1 < First(kept[k]);
    }
  }

  /** Putting a region in front keeps the list ordered when it ends before every other region starts. */
  lemma PrependOrdered(lead: Region, edges: seq<Region>, length: int)
    requires InRange(lead, length) && lead.start < lead.end
    requires forall k :: 0 <= k < |edges| ==> InRange(edges[k], length) && lead.end <= edges[k].start
    requires forall k :: 0 <= k < |edges| - 1 ==> edges[k].start < edges[k].end
    requires Pairwise(edges, Precedes)
    ensures var c := [lead] + edges;
      && (forall k :: 0 <= k < |c| ==> InRange(c[k], length))
      && Pairwise(c, Precedes)
      && (forall k :: 0 <= k < |c| - 1 ==> c[k].start < c[k].end)
  {
    var c := [lead] + edges;
    forall i, j | 0 <= i < j < |c| ensures Precedes(c[i], c[j]) {
      assert c[j] == edges[j - 1];
      if i > 0 {
        assert c[i] == edges[i - 1];
      }
    }
    forall k | 0 < k < |c| ensures InRange(c[k], length) && (k < |c| - 1 ==> c[k].start < c[k].end) {
      assert c[k] == edges[k - 1];
    }
  }

  /** Putting the leading region in front of the edge regions keeps them in
      range and in order, and leaves every region but the last non-empty. */
  lemma LeadingOrdered(kept: seq<seq<int>>, length: int)
    requires KeptShape(kept, length)
    ensures var c := WithLeading(kept, EdgeRegions(kept, length));
      && (forall k :: 0 <= k < |c| ==> InRange(c[k], length))
      && Pairwise(c, Precedes)
      && (forall k :: 0 <= k < |c| - 1 ==> c[k].start < c[k].end)
  {
    var edges := EdgeRegions(kept, length);
    EdgeRegionsInRange(kept, length);
    EdgeRegionsPrecede(kept, length);
    if HasLeading(kept) {
      RunsNonDecreasing(kept);
      PrependOrdered(Region(0, Last(kept[0])), edges, length);
    }
  }

  /** Before the length filter every region lies in the sample range, each
      ends no later than any later one starts, and only the final one can be
      empty: two retained clusters are never adjacent, so the regions between
      them have positive length. */
  lemma CandidatesOrdered(peaks: seq<real>, minLen: real)
    ensures forall k :: 0 <= k < |Candidates(peaks, minLen)| ==> InRange(Candidates(peaks, minLen)[k], |peaks|)
    ensures Pairwise(Candidates(peaks, minLen), Precedes)
    ensures forall k :: 0 <= k < |Candidates(peaks, minLen)| - 1 ==>
      Candidates(peaks, minLen)[k].start < Candidates(peaks, minLen)[k].end
  {
    KeptSortedRuns(peaks, minLen);
    LeadingOrdered(Kept(peaks, minLen), |peaks|);
  }

  /** Before the length filter there is one region per retained cluster, plus
      a leading region from sample 0 to the end of the first retained cluster
      exactly when that cluster does not start at sample 0. */
  lemma LeadingRegion(peaks: seq<real>, minLen: real)
    ensures var kept := Kept(peaks, minLen);
      var c := Candidates(peaks, minLen);
      && (|c| == |kept| + 1 <==> |kept| > 0 && First(kept[0]) != 0)
      && (|c| == |kept| || |c| == |kept| + 1)
      && (|c| == |kept| + 1 ==> c[0] == Region(0, Last(kept[0])) && c[1..] == EdgeRegions(kept, |peaks|))
      && (|c| == |kept| ==> c == EdgeRegions(kept, |peaks|))
  {
    var kept := Kept(peaks, minLen);
    var edges := EdgeRegions(kept, |peaks|);
    if HasLeading(kept) {
      assert Candidates(peaks, minLen)[1..] == edges;
    }
  }

  /** Every returned region is at least `minLen` long and lies in the sample
      range; with a positive `minLen` it is non-empty. */
  lemma IndexRegionsBounded(peaks: seq<real>, minLen: real)
    ensures forall k :: 0 <= k < |IndexRegions(peaks, minLen)| ==>
      var g := IndexRegions(peaks, minLen)[k];
      (g.end - g.start) as real >= minLen && InRange(g, |peaks|)
    ensures minLen > 0.0 ==> forall k :: 0 <= k < |IndexRegions(peaks, minLen)| ==>
      IndexRegions(peaks, minLen)[k].start < IndexRegions(peaks, minLen)[k].end
  {
    var c := Candidates(peaks, minLen);
    var r := IndexRegions(peaks, minLen);
    CandidatesOrdered(peaks, minLen);
    forall k | 0 <= k < |r| ensures InRange(r[k], |peaks|) {
      var j :| 0 <= j < |c| && c[j] == r[k];
    }
  }

  /** The returned regions are in order and do not overlap: each ends no
      later than every later one starts. With a positive `minLen` the starts
      strictly increase. */
  lemma IndexRegionsOrdered(peaks: seq<real>, minLen: real)
    ensures Pairwise(IndexRegions(peaks, minLen), Precedes)
    ensures minLen > 0.0 ==> StrictlyIncreasingStarts(IndexRegions(peaks, minLen))
  {
    var c := Candidates(peaks, minLen);
    var r := IndexRegions(peaks, minLen);
    CandidatesOrdered(peaks, minLen);
    FilterPairwise(c, (g: Region) => (g.end - g.start) as real >= minLen, Precedes);
    if minLen > 0.0 {
      forall i, j | 0 <= i < j < |r| ensures r[i].start < r[j].start {
        assert Precedes(r[i], r[j]);
        assert (r[i].end - r[i].start) as real >= minLen;
      }
    }
  }

  predicate StrictlyIncreasingStarts(rs: seq<Region>) {
    forall i, j :: 0 <= i < j < |rs| ==> rs[i].start < rs[j].start
  }

  /** When no silence cluster reaches `minLen` samples, nothing is returned. */
  lemma NoLongSilenceNoRegions(peaks: seq<real>, minLen: real)
    requires forall c :: c in Clusters(Silences(peaks)) ==> (|c| as real) < minLen
    ensures IndexRegions(peaks, minLen) == []
  {
  }

  /** Input without any silent sample yields nothing. */
  lemma NoSilenceNoRegions(peaks: seq<real>, minLen: real)
    requires forall i :: 0 <= i < |peaks| ==> !IsSilent(peaks[i])
    ensures IndexRegions(peaks, minLen) == []
  {
    NoSilentIndices(peaks);
    assert Clusters(Silences(peaks)) == [];
    NoLongSilenceNoRegions(peaks, minLen);
  }

  /** When the silent samples are exactly those from `a` to `b`, they form a single cluster. */
  lemma SingleRunClusters(peaks: seq<real>, a: int, b: int)
    requires 0 <= a <= b < |peaks|
    requires forall i :: 0 <= i < |peaks| ==> (IsSilent(peaks[i]) <==> a <= i <= b)
    ensures Clusters(Silences(peaks)) == [seq(b - a + 1, k => a + k)]
  {
    var s := seq(b - a + 1, k => a + k);
    RunIndices(peaks, a, b);
    assert IsRun(s);
    RunClusters(s);
  }

  /** With a single silence cluster, it is retained exactly when it is long enough. */
  lemma KeptSingle(peaks: seq<real>, s: seq<int>, minLen: real)
    requires Clusters(Silences(peaks)) == [s]
    ensures Kept(peaks, minLen) == if |s| as real >= minLen then [s] else []
  {
    assert [s][1..] == [];
  }

  /** A single silence from `a` to `b` that is long enough yields, before the
      length filter, a leading region up to `b` when the silence does not
      start the audio, and a region from `b` to the last sample. */
  lemma SingleSilenceCandidates(peaks: seq<real>, a: int, b: int, minLen: real)
    requires 0 <= a <= b < |peaks|
    requires forall i :: 0 <= i < |peaks| ==> (IsSilent(peaks[i]) <==> a <= i <= b)
    requires (b - a + 1) as real >= minLen
    ensures Candidates(peaks, minLen) ==
      (if a != 0 then [Region(0, b)] else []) + [Region(b, |peaks| - 1)]
  {
    var s := seq(b - a + 1, k => a + k);
    assert Kept(peaks, minLen) == [s] by {
      SingleRunClusters(peaks, a, b);
      KeptSingle(peaks, s, minLen);
    }
    assert First(s) == a && Last(s) == b;
    CandidatesOfOne(peaks, s, minLen);
  }

  lemma CandidatesOfOne(peaks: seq<real>, s: seq<int>, minLen: real)
    requires |s| > 0 && Kept(peaks, minLen) == [s]
    ensures Candidates(peaks, minLen) ==
      (if First(s) != 0 then [Region(0, Last(s))] else []) + [Region(Last(s), |peaks| - 1)]
  {
    assert EdgeRegions([s], |peaks|) == [Region(Last(s), |peaks| - 1)];
  }

  /** An all-silent input yields nothing: its one cluster starts at sample 0,
      so no leading region is added, and the single region from the last
      sample to the last sample is empty and filtered out. */
  lemma AllSilentNoRegions(peaks: seq<real>, minLen: real)
    requires minLen > 0.0
    requires forall i :: 0 <= i < |peaks| ==> IsSilent(peaks[i])
    ensures IndexRegions(peaks, minLen) == []
  {
    var n := |peaks|;
    if n > 0 {
      var s := seq(n, k => 0 + k);
      assert Kept(peaks, minLen) == [] || Kept(peaks, minLen) == [s] by {
        SingleRunClusters(peaks, 0, n - 1);
        KeptSingle(peaks, s, minLen);
      }
      if Kept(peaks, minLen) == [s] {
        CandidatesOfOne(peaks, s, minLen);
        EmptyRegionDropped(Region(n - 1, n - 1), minLen);
      }
    }
  }

  /** A region of length zero never passes the filter when `minLen` is positive. */
  lemma EmptyRegionDropped(g: Region, minLen: real)
    requires minLen > 0.0 && g.start == g.end
    ensures KeepRegions([g], minLen) == []
  {
    assert [g][1..] == [];
  }
}
