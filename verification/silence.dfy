/** Step one of `extractRegions` (annotation/app.js:157-162): the indices of
    the peak samples whose magnitude is at most the silence threshold. */
module Silence {
  import opened Sequences

  /** The amplitude at or below which a peak counts as silent (app.js:149). */
  const MinValue: real := 0.0015

  /** `Math.abs` on a peak value. */
  function Abs(v: real): real {
    if v < 0.0 then -v else v
  }

  predicate IsSilent(v: real) {
    Abs(v) <= MinValue
  }

  /** The silent indices in the order the `forEach` over the peaks pushes them. */
  function Silences(peaks: seq<real>): (r: seq<int>)
    ensures StrictlyIncreasing(r)
    ensures forall k :: 0 <= k < |r| ==> 0 <= r[k] < |peaks| && IsSilent(peaks[r[k]])
    ensures forall i :: 0 <= i < |peaks| && IsSilent(peaks[i]) ==> i in r
  {
    if |peaks| == 0 then []
    else
      var n := |peaks| - 1;
      Silences(peaks[..n]) + (if IsSilent(peaks[n]) then [n] else [])
  }

  /** `Silences` is the one sorted listing of the silent indices: any strictly
      increasing sequence holding exactly the silent indices equals it. */
  lemma SilencesCharacterized(peaks: seq<real>, r: seq<int>)
    requires StrictlyIncreasing(r)
    requires forall k :: 0 <= k < |r| ==> 0 <= r[k] < |peaks| && IsSilent(peaks[r[k]])
    requires forall i :: 0 <= i < |peaks| && IsSilent(peaks[i]) ==> i in r
    ensures r == Silences(peaks)
  {
    var s := Silences(peaks);
    forall x
      ensures x in r <==> x in s
    {
      if x in r {
        var k :| 0 <= k < |r| && r[k] == x;
        assert 0 <= x < |peaks| && IsSilent(peaks[x]);
      }
      if x in s {
        var k :| 0 <= k < |s| && s[k] == x;
        assert 0 <= x < |peaks| && IsSilent(peaks[x]);
      }
    }
    SortedUnique(r, s);
  }

  /** When the silent samples are exactly those from `a` to `b`, the silent
      indices are a, a + 1, ..., b. */
  lemma RunIndices(peaks: seq<real>, a: int, b: int)
    requires 0 <= a <= b < |peaks|
    requires forall i :: 0 <= i < |peaks| ==> (IsSilent(peaks[i]) <==> a <= i <= b)
    ensures Silences(peaks) == seq(b - a + 1, k => a + k)
  {
    var r := seq(b - a + 1, k => a + k);
    forall i | 0 <= i < |peaks| && IsSilent(peaks[i])
      ensures i in r
    {
      assert r[i - a] == i;
    }
    SilencesCharacterized(peaks, r);
  }

  /** With no silent sample there are no silent indices. */
  lemma NoSilentIndices(peaks: seq<real>)
    requires forall i :: 0 <= i < |peaks| ==> !IsSilent(peaks[i])
    ensures Silences(peaks) == []
  {
    SilencesCharacterized(peaks, []);
  }
}
