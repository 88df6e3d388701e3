/** Step two of `extractRegions` (annotation/app.js:165-172): grouping the
    silent indices into maximal runs of consecutive integers ("clusters"). */
module Clustering {
  import opened Sequences

  function First(c: seq<int>): int
    requires |c| > 0
  {
    c[0]
  }

  function Last(c: seq<int>): int
    requires |c| > 0
  {
    c[|c| - 1]
  }

  /** A non-empty block of consecutive integers. */
  predicate IsRun(c: seq<int>) {
    |c| > 0 && forall k :: 0 <= k < |c| ==> c[k] == c[0] + k
  }

  /** The concatenation of the clusters, in order. */
  function Flatten(cs: seq<seq<int>>): seq<int> {
    if |cs| == 0 then [] else Flatten(cs[..|cs| - 1]) + cs[|cs| - 1]
  }

  /** `cs` splits `s` into runs, and no run could be joined to the next one. */
  predicate IsClustering(cs: seq<seq<int>>, s: seq<int>) {
    && (forall i :: 0 <= i < |cs| ==> IsRun(cs[i]))
    && Flatten(cs) == s
    && (forall i :: 0 <= i < |cs| - 1 ==> Last(cs[i]) + 1 != First(cs[i + 1]))
  }

  /** Runs in increasing order with a gap of at least one missing integer
      between any run and every later one. */
  predicate SortedRuns(cs: seq<seq<int>>) {
    && (forall i :: 0 <= i < |cs| ==> IsRun(cs[i]))
    && (forall i, j :: 0 <= i < j < |cs| ==> Last(cs[i]) + 1 < First(cs[j]))
  }

  /** The clusters built by the `forEach` over `silences`: a value joins the
      last cluster when it is one more than the value before it, and starts a
      new cluster otherwise. */
  function Clusters(s: seq<int>): (cs: seq<seq<int>>)
    ensures |cs| <= |s|
    ensures |cs| == 0 <==> |s| == 0
    ensures forall i :: 0 <= i < |cs| ==> |cs[i]| > 0
  {
    if |s| == 0 then []
    else
      var prior := Clusters(s[..|s| - 1]);
      var v := s[|s| - 1];
      if |prior| > 0 && v == s[|s| - 2] + 1 then
        prior[..|prior| - 1] + [prior[|prior| - 1] + [v]]
      else
        prior + [[v]]
  }

  lemma FlattenLast(cs: seq<seq<int>>)
    requires |cs| > 0 && |cs[|cs| - 1]| > 0
    ensures |Flatten(cs)| > 0 && Last(Flatten(cs)) == Last(cs[|cs| - 1])
  {
  }

  lemma {:induction false} FlattenFirst(cs: seq<seq<int>>)
    requires |cs| > 0 && forall i :: 0 <= i < |cs| ==> |cs[i]| > 0
    ensures |Flatten(cs)| > 0 && First(Flatten(cs)) == First(cs[0])
  {
    if |cs| > 1 {
      FlattenFirst(cs[..|cs| - 1]);
    }
  }

  /** Appending a value one past the end of the last cluster extends that cluster. */
  lemma ExtendKeepsClustering(prior: seq<seq<int>>, p: seq<int>, v: int)
    requires IsClustering(prior, p) && |prior| > 0
    requires v == Last(prior[|prior| - 1]) + 1
    ensures IsClustering(prior[..|prior| - 1] + [prior[|prior| - 1] + [v]], p + [v])
  {
    var m := |prior| - 1;
    var c := prior[m];
    var cs := prior[..m] + [c + [v]];
    assert cs[..m] == prior[..m];
    assert prior == prior[..m] + [c];
    assert Flatten(cs) == Flatten(prior[..m]) + (c + [v]);
    assert Flatten(prior) == Flatten(prior[..m]) + c;
    forall i | 0 <= i < |cs| ensures IsRun(cs[i]) {
      if i < m {
        assert cs[i] == prior[i];
      }
    }
    forall i | 0 <= i < |cs| - 1 ensures Last(cs[i]) + 1 != First(cs[i + 1]) {
      assert cs[i] == prior[i];
      if i + 1 < m {
        assert cs[i + 1] == prior[i + 1];
      }
    }
  }

  /** Appending a value that does not continue the last cluster starts a new one. */
  lemma StartKeepsClustering(prior: seq<seq<int>>, p: seq<int>, v: int)
    requires IsClustering(prior, p)
    requires |prior| > 0 ==> v != Last(prior[|prior| - 1]) + 1
    ensures IsClustering(prior + [[v]], p + [v])
  {
    var cs := prior + [[v]];
    assert cs[..|prior|] == prior;
    forall i | 0 <= i < |cs| - 1 ensures Last(cs[i]) + 1 != First(cs[i + 1]) {
      assert cs[i] == prior[i];
      if i < |prior| - 1 {
        assert cs[i + 1] == prior[i + 1];
      }
    }
  }

  /** The clusters are runs that concatenate back to the silences, and
      neighbouring clusters could not be merged. */
  lemma {:induction false} ClustersIsClustering(s: seq<int>)
    ensures IsClustering(Clusters(s), s)
  {
    if |s| > 0 {
      var p := s[..|s| - 1];
      var v := s[|s| - 1];
      var prior := Clusters(p);
      ClustersIsClustering(p);
      assert s == p + [v];
      if |prior| > 0 {
        FlattenLast(prior);
        assert Last(prior[|prior| - 1]) == s[|s| - 2];
      }
      if |prior| > 0 && v == s[|s| - 2] + 1 {
        ExtendKeepsClustering(prior, p, v);
      } else {
        StartKeepsClustering(prior, p, v);
      }
    }
  }

  /** Removing a final one-element cluster leaves a clustering of the prefix. */
  lemma PeelSingleton(cs: seq<seq<int>>, s: seq<int>)
    requires IsClustering(cs, s) && |cs| > 0 && |cs[|cs| - 1]| == 1
    ensures |s| > 0 && IsClustering(cs[..|cs| - 1], s[..|s| - 1])
    ensures cs[|cs| - 1] == [s[|s| - 1]]
    ensures |cs| > 1 ==> |s| > 1 && s[|s| - 1] != s[|s| - 2] + 1
  {
    var m := |cs| - 1;
    var c := cs[m];
    var before := cs[..m];
    assert Flatten(cs) == Flatten(before) + c;
    FlattenLast(cs);
    assert c == [Last(c)];
    assert Flatten(before) == s[..|s| - 1];
    forall i | 0 <= i < |before| - 1 ensures Last(before[i]) + 1 != First(before[i + 1]) {
      assert before[i] == cs[i] && before[i + 1] == cs[i + 1];
    }
    if m > 0 {
      FlattenLast(before);
      assert Last(cs[m - 1]) + 1 != First(c);
    }
  }

  /** Removing the last value of a longer final cluster leaves a clustering of the prefix. */
  lemma PeelValue(cs: seq<seq<int>>, s: seq<int>)
    requires IsClustering(cs, s) && |cs| > 0 && |cs[|cs| - 1]| > 1
    ensures |s| > 1 && s[|s| - 1] == s[|s| - 2] + 1
    ensures var m := |cs| - 1;
      IsClustering(cs[..m] + [cs[m][..|cs[m]| - 1]], s[..|s| - 1])
    ensures var m := |cs| - 1;
      cs[m] == cs[m][..|cs[m]| - 1] + [s[|s| - 1]]
  {
    var m := |cs| - 1;
    var c := cs[m];
    var c' := c[..|c| - 1];
    var before := cs[..m] + [c'];
    assert Flatten(cs) == Flatten(cs[..m]) + c;
    FlattenLast(cs);
    assert before[..m] == cs[..m];
    assert Flatten(before) == Flatten(cs[..m]) + c';
    assert c == c' + [Last(c)];
    assert Flatten(before) == s[..|s| - 1];
    forall i | 0 <= i < |before| ensures IsRun(before[i]) {
      if i < m {
        assert before[i] == cs[i];
      }
    }
    forall i | 0 <= i < |before| - 1 ensures Last(before[i]) + 1 != First(before[i + 1]) {
      assert before[i] == cs[i];
      if i + 1 < m {
        assert before[i + 1] == cs[i + 1];
      }
    }
    FlattenLast(before);
  }

  /** Replacing the last cluster changes no other one. */
  lemma ReplaceLast(cs: seq<seq<int>>, c: seq<int>)
    requires |cs| > 0
    ensures var p := cs[..|cs| - 1] + [c];
      |p| == |cs| && p[|cs| - 1] == c && forall i :: 0 <= i < |cs| - 1 ==> p[i] == cs[i]
  {
  }

  /** `Clusters` starts a new cluster for a value that does not continue the previous one. */
  lemma ClustersStart(s: seq<int>)
    requires |s| > 0
    requires |s| > 1 ==> s[|s| - 1] != s[|s| - 2] + 1
    ensures Clusters(s) == Clusters(s[..|s| - 1]) + [[s[|s| - 1]]]
  {
  }

  /** `Clusters` appends a value that continues the previous one to the last cluster. */
  lemma ClustersExtend(s: seq<int>)
    requires |s| > 1 && s[|s| - 1] == s[|s| - 2] + 1
    ensures var prior := Clusters(s[..|s| - 1]);
      |prior| > 0 && Clusters(s) == prior[..|prior| - 1] + [prior[|prior| - 1] + [s[|s| - 1]]]
  {
  }

  /** A final one-element cluster that does not continue the previous value
      is what `Clusters` appends for that value. */
  lemma UniqueStartStep(cs: seq<seq<int>>, s: seq<int>, prior: seq<seq<int>>)
    requires |s| > 0 && |cs| > 0 && prior == Clusters(s[..|s| - 1])
    requires cs[..|cs| - 1] == prior
    requires cs[|cs| - 1] == [s[|s| - 1]]
    requires |s| > 1 ==> s[|s| - 1] != s[|s| - 2] + 1
    ensures cs == Clusters(s)
  {
    ClustersStart(s);
    var r := Clusters(s);
    assert r == prior + [[s[|s| - 1]]];
    assert |r| == |cs|;
    forall i | 0 <= i < |cs| ensures r[i] == cs[i] {
      if i < |cs| - 1 {
        assert r[i] == prior[i] == cs[..|cs| - 1][i];
      }
    }
  }

  /** A final cluster whose last value continues the one before is what
      `Clusters` builds by appending that value to the last cluster. */
  lemma UniqueExtendStep(cs: seq<seq<int>>, s: seq<int>, prior: seq<seq<int>>)
    requires |s| > 1 && s[|s| - 1] == s[|s| - 2] + 1
    requires prior == Clusters(s[..|s| - 1])
    requires |prior| == |cs| > 0
    requires forall i :: 0 <= i < |cs| - 1 ==> prior[i] == cs[i]
    requires cs[|cs| - 1] == prior[|cs| - 1] + [s[|s| - 1]]
    ensures cs == Clusters(s)
  {
    var m := |cs| - 1;
    ClustersExtend(s);
    var r := Clusters(s);
    assert r == prior[..m] + [prior[m] + [s[|s| - 1]]];
    assert |r| == |cs|;
    forall i | 0 <= i < |cs| ensures r[i] == cs[i] {
      if i < m {
        assert r[i] == prior[..m][i];
      }
    }
  }

  /** The clustering of a sequence is unique: any split into runs that
      cannot be merged is the one `Clusters` computes. */
  lemma {:induction false} ClusteringUnique(cs: seq<seq<int>>, s: seq<int>)
    requires IsClustering(cs, s)
    ensures cs == Clusters(s)
    decreases |s|
  {
    if |cs| > 0 {
      var m := |cs| - 1;
      if |cs[m]| == 1 {
        PeelSingleton(cs, s);
        ClusteringUnique(cs[..m], s[..|s| - 1]);
        UniqueStartStep(cs, s, cs[..m]);
      } else {
        PeelValue(cs, s);
        var prior := cs[..m] + [cs[m][..|cs[m]| - 1]];
        ClusteringUnique(prior, s[..|s| - 1]);
        ReplaceLast(cs, cs[m][..|cs[m]| - 1]);
        UniqueExtendStep(cs, s, prior);
      }
    } else {
      assert |Flatten(cs)| == 0;
    }
  }

  lemma SortedRunsStart(prior: seq<seq<int>>, v: int)
    requires SortedRuns(prior)
    requires |prior| > 0 ==> Last(prior[|prior| - 1]) + 1 < v
    ensures SortedRuns(prior + [[v]])
  {
    var cs := prior + [[v]];
    forall i, j | 0 <= i < j < |cs| ensures Last(cs[i]) + 1 < First(cs[j]) {
      assert cs[i] == prior[i];
      if j < |prior| {
        assert cs[j] == prior[j];
      } else if i < |prior| - 1 {
        assert Last(prior[i]) + 1 < First(prior[|prior| - 1]);
      }
    }
  }

  lemma SortedRunsExtend(prior: seq<seq<int>>, v: int)
    requires SortedRuns(prior) && |prior| > 0
    requires v == Last(prior[|prior| - 1]) + 1
    ensures SortedRuns(prior[..|prior| - 1] + [prior[|prior| - 1] + [v]])
  {
    var m := |prior| - 1;
    var cs := prior[..m] + [prior[m] + [v]];
    forall i | 0 <= i < |cs| ensures IsRun(cs[i]) {
      if i < m {
        assert cs[i] == prior[i];
      }
    }
    forall i, j | 0 <= i < j < |cs| ensures Last(cs[i]) + 1 < First(cs[j]) {
      assert cs[i] == prior[i];
      assert First(cs[j]) == First(prior[j]);
    }
  }

  /** On strictly increasing silences the clusters are sorted runs: every
      cluster ends more than one index before any later cluster starts. */
  lemma {:induction false} ClustersSorted(s: seq<int>)
    requires StrictlyIncreasing(s)
    ensures SortedRuns(Clusters(s))
  {
    if |s| > 0 {
      var p := s[..|s| - 1];
      var v := s[|s| - 1];
      var prior := Clusters(p);
      ClustersIsClustering(p);
      ClustersSorted(p);
      if |prior| > 0 {
        FlattenLast(prior);
        assert Last(prior[|prior| - 1]) == s[|s| - 2];
      }
      if |prior| > 0 && v == s[|s| - 2] + 1 {
        SortedRunsExtend(prior, v);
      } else {
        SortedRunsStart(prior, v);
      }
    }
  }

  /** Every cluster lies between the first and the last silent index. */
  lemma ClustersBounded(s: seq<int>)
    requires StrictlyIncreasing(s)
    ensures forall i :: 0 <= i < |Clusters(s)| ==>
      s[0] <= First(Clusters(s)[i]) && Last(Clusters(s)[i]) <= s[|s| - 1]
  {
    var cs := Clusters(s);
    if |cs| > 0 {
      ClustersIsClustering(s);
      ClustersSorted(s);
      FlattenFirst(cs);
      FlattenLast(cs);
      forall i | 0 <= i < |cs| ensures s[0] <= First(cs[i]) && Last(cs[i]) <= s[|s| - 1] {
        assert First(cs[0]) <= Last(cs[0]);
        assert First(cs[i]) <= Last(cs[i]);
      }
    }
  }

  /** A run of consecutive integers is a single cluster. */
  lemma RunClusters(s: seq<int>)
    requires IsRun(s)
    ensures Clusters(s) == [s]
  {
    assert Flatten([s]) == Flatten([]) + s;
    assert IsClustering([s], s);
    ClusteringUnique([s], s);
  }
}
