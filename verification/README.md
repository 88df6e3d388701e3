# Silence-based region extraction, modelled in Dafny

This project models `extractRegions` from the audio annotation tool
(`annotation/app.js:147-209`). The function takes the waveform's peak
amplitudes and the audio's duration. It returns the stretches of audio
between silences as `{start, end}` pairs in seconds. It is defined in
`app.js` but nothing in that file calls it: the `ready` handler
(`annotation/app.js:60-75`) only loads regions from `annotations.json`.

The model keeps the stages of the JavaScript function, one pure function
each:

- `silence.dfy` (`Silence`): the indices of the silent peaks, those with
  `|v| <= 0.0015`, in the order the `forEach` pushes them.
- `clustering.dfy` (`Clustering`): the silent indices grouped into clusters
  as the second `forEach` does. An independent characterisation shows the
  grouping is the unique split into maximal runs of consecutive indices.
- `segments.dfy` (`Segments`): the index-space stages.
  - The cluster length filter against `minLen`.
  - The regions "on the edges of silences".
  - The optional leading region.
  - The region length filter.
- `timing.dfy` (`Timing`): the whole function. It works out `coef` and
  `minLen`, converts to seconds and rounds with
  `Math.round(x * 10) / 10`.
- `scenarios.dfy` (`Scenarios`): concrete recordings and their results.
- `sequences.dfy` (`Sequences`): the generic order-preserving filter that
  both `Array.prototype.filter` calls become, and facts about sorted
  sequences.

Numbers are exact. Peaks, the duration and `minLen` are `real`. Indices are
`int`. `minLen = 0.25 / coef` is kept as a real, and cluster and region
lengths are compared against it as reals, just as JavaScript compares a
count against a fractional number. `Math.round(y)` is modelled as
`floor(y + 0.5)`: JavaScript rounds halves towards positive infinity.

Some consequences of the code that a reader might not expect:

- An input that is never silent yields no region at all, not one region
  covering the whole recording: with no cluster there is no edge region
  and no leading region (`Scenarios.LoudScenario`).
- A region after a silence starts at the silence's last sample, not at the
  first loud sample after it. Forty quarter-second samples over 10 s,
  silent from 10 to 13, give the regions 0.0-3.3 s and 3.3-9.8 s
  (`Scenarios.QuarterSecondScenario`).
- Rounding to one decimal can push the last region's end past the
  duration. A 0.98 s recording of forty samples ends its last region at
  1.0 s (`Scenarios.RoundedEndPastDuration`). What does hold is
  `end < duration + 0.05` (`Timing.ExtractSpans`).
- The code does no validation of regions and reports no errors: the
  returned list goes as it is to whoever uses it.

## Model

| member | source | states |
|---|---|---|
| Silence.IsSilent | annotation/app.js:159 | The silence test `Math.abs(val) <= minValue`. It has no contract of its own; `Silence.Silences` states which indices pass it. |
| Silence.Silences | annotation/app.js:156-162 | The silent indices are strictly increasing and lie in the peak array. Every index listed is silent, and every silent index is listed. |
| Silence.SilencesCharacterized | annotation/app.js:156-162 | Any strictly increasing list holding exactly the silent indices is the list `Silences` builds, so the push order is the sorted order. |
| Silence.RunIndices | annotation/app.js:156-162 | When exactly the samples `a..b` are silent, the silent indices are `a, a+1, ..., b`. |
| Clustering.Clusters | annotation/app.js:164-172 | Grouping builds one non-empty cluster or more exactly when there is a silent index, and never more clusters than indices. |
| Clustering.ClustersIsClustering | annotation/app.js:164-172 | Every cluster is a run of consecutive integers. Concatenated in order they give back the silent indices. No cluster continues the one before it, so clusters are maximal. |
| Clustering.ClusteringUnique | annotation/app.js:164-172 | Any split of a sequence into maximal runs that concatenates back to it is the one the grouping loop builds. |
| Clustering.ClustersSorted | annotation/app.js:164-172 | For strictly increasing input, each cluster's first index exceeds every earlier cluster's last index plus one. |
| Clustering.ClustersBounded | annotation/app.js:164-172 | For strictly increasing input, every cluster's indices lie between the input's first and last value. |
| Clustering.RunClusters | annotation/app.js:164-172 | A run of consecutive indices is grouped into exactly one cluster. |
| Segments.Retained | annotation/app.js:174-177 | Every kept cluster is at least `minLen` long and comes from the input. Every input cluster that long is kept. The kept clusters are in their original order. |
| Segments.RetainedCounts | annotation/app.js:174-177 | Each cluster at least `minLen` long is kept as many times as it occurs in the input, and every other cluster occurs zero times. |
| Segments.KeptSortedRuns | annotation/app.js:174-177 | The kept clusters are sorted, non-adjacent runs inside the sample range, each at least `minLen` long. They form an order-preserving subsequence of all clusters. |
| Segments.EdgeRegions | annotation/app.js:179-186 | There is one region per kept cluster. It starts at that cluster's last index and ends at the next kept cluster's first index, or at `length - 1` for the final cluster. |
| Segments.WithLeading | annotation/app.js:188-195 | Puts the leading region in front when the first kept cluster does not start at 0. It has no contract of its own; `Segments.LeadingRegion` and `Segments.LeadingOrdered` state its properties. |
| Segments.LeadingOrdered | annotation/app.js:179-195 | With the leading region in front of the edge regions, every region lies in `[0, length-1]` and ends no later than any later one starts. Every region but the last is non-empty. |
| Segments.LeadingRegion | annotation/app.js:188-195 | The leading region `{0, last index of the first kept cluster}` is put in front exactly when a cluster was kept and the first one does not start at 0. Otherwise the edge regions are returned unchanged. |
| Segments.KeepRegions | annotation/app.js:197-200 | Every kept region has `end - start >= minLen` and comes from the input. Every input region that long is kept. The kept regions are in their original order. |
| Segments.KeepRegionsCounts | annotation/app.js:197-200 | Each region with `end - start >= minLen` is kept as many times as it occurs in the input, and every other region occurs zero times. |
| Segments.Kept | annotation/app.js:156-177 | The retained clusters `fClusters`: the clusters of the silent indices after the length filter. Its contract states only that every cluster is non-empty; `Segments.KeptSortedRuns` states its properties, and `Segments.RetainedCounts` those of the filter it applies. |
| Segments.Candidates | annotation/app.js:156-195 | The region list `regions` after the optional `unshift`: the edge regions of the retained clusters, with the leading region in front when `Segments.HasLeading` holds (app.js:190). It has no contract of its own; `Segments.LeadingRegion`, `Segments.CandidatesOrdered` and `Segments.SingleSilenceCandidates` state its properties. |
| Segments.IndexRegions | annotation/app.js:156-200 | The filtered region list `fRegions`, in sample indices, before the conversion to seconds. It has no contract of its own; `Segments.IndexRegionsBounded`, `Segments.IndexRegionsOrdered`, `Segments.NoLongSilenceNoRegions` and `Segments.AllSilentNoRegions` state its properties. |
| Segments.CandidatesOrdered | annotation/app.js:179-195 | Before the length filter, every region lies in `[0, length-1]` and each ends no later than any later one starts. Every region but the last is non-empty. |
| Segments.IndexRegionsBounded | annotation/app.js:179-200 | Every returned index region has `end - start >= minLen` and both bounds in `[0, length-1]`. A positive `minLen` makes `start < end`. |
| Segments.IndexRegionsOrdered | annotation/app.js:179-200 | The returned index regions do not overlap: each ends no later than every later one starts. With a positive `minLen` their starts strictly increase. |
| Segments.NoLongSilenceNoRegions | annotation/app.js:174-200 | When no silence cluster is at least `minLen` long, no region is returned. |
| Segments.NoSilenceNoRegions | annotation/app.js:156-200 | Input with no silent sample yields no region. |
| Segments.SingleSilenceCandidates | annotation/app.js:164-195 | A single long enough silence from `a` to `b` yields a region from `b` to the last sample. A leading region `{0, b}` comes first exactly when `a != 0`. |
| Segments.AllSilentNoRegions | annotation/app.js:156-200 | For positive `minLen`, an all-silent input yields no region: its one cluster starts at 0, and the only region it yields has length zero. |
| Sequences.FilterMultiset | annotation/app.js:174-177 | An order-preserving filter keeps every occurrence of a passing element and no occurrence of a failing one. |
| Sequences.FilterPairwise | annotation/app.js:174-177 | An order-preserving filter keeps every relation the input held between an earlier and a later element. |
| Sequences.SortedUnique | annotation/app.js:156-162 | Two strictly increasing sequences with the same elements are equal. |
| Timing.Round1 | annotation/app.js:205-206 | Rounding to one decimal moves a value by at most 0.05, and strictly less than 0.05 downwards. It keeps non-negative values non-negative. |
| Timing.Round1Monotone | annotation/app.js:205-206 | Rounding to one decimal never reverses the order of two values. |
| Timing.SampleTime | annotation/app.js:152-153 | Sample start times grow with the index and all lie in `[0, duration - coef]`. |
| Timing.SpanOfOrdered | annotation/app.js:203-208 | A region that ends no later than another starts still does so after conversion to seconds and rounding. |
| Timing.SpanBounds | annotation/app.js:197-208 | A region of at least `minLen` samples lasts more than `0.25 - 0.1` seconds after rounding, starts at or after 0 and ends before `duration + 0.05`. |
| Timing.Extract | annotation/app.js:147-209 | The whole function. It has no contract of its own; `Timing.ExtractSpans`, `Timing.ExtractOrdered` and the scenarios state its properties. |
| Timing.SpanOf | annotation/app.js:204-207 | One region converted to seconds, each bound `Math.round(index * coef * 10) / 10`, where `Timing.Time` is `index * coef`. It has no contract of its own; `Timing.SpanBounds` and `Timing.SpanOfOrdered` state its properties. |
| Timing.ToSpans | annotation/app.js:203-208 | The `map` of every region to seconds. It has no contract of its own; `Timing.SpansBounded` and `Timing.SpansOrdered` state its properties. |
| Timing.SpansBounded | annotation/app.js:203-208 | Converting in-range regions of at least `minLen` samples gives spans with `0 <= start < end < duration + 0.05` and `end - start > 0.15`. |
| Timing.SpansOrdered | annotation/app.js:203-208 | Converting in-range regions that do not overlap gives spans in which each ends no later than every later one starts. |
| Timing.ExtractSpans | annotation/app.js:147-209 | For a non-negative duration every returned region satisfies `0 <= start < end < duration + 0.05` and `end - start > 0.15`. |
| Timing.ExtractOrdered | annotation/app.js:147-209 | For a non-negative duration the returned regions keep their order: each ends no later than every later one starts, and starts strictly increase. |
| Timing.NoPeaksNoRegions | annotation/app.js:151-162 | An empty peak array yields no index region for any `minLen`. |
| Scenarios.QuarterSecondScenario | annotation/app.js:147-209 | For forty samples over 10 s, silent exactly from 10 to 13, the result is `[{0.0, 3.3}, {3.3, 9.8}]`. |
| Scenarios.RoundedEndPastDuration | annotation/app.js:147-209 | For forty samples over 0.98 s, silent exactly from 5 to 16, the result is `[{0.0, 0.4}, {0.4, 1.0}]`. The last end lies after the end of the recording. |
| Scenarios.LoudScenario | annotation/app.js:147-209 | A recording with no silent sample yields no region, for any duration. |

## Left out

- The WaveSurfer set-up, plugins, audio loading and event wiring
  (`annotation/app.js:9-114`) are user-interface plumbing around the
  extractor.
- `saveRegions` and `loadRegions` (`annotation/app.js:119-142`) only copy
  the widget's region list to and from `localStorage` as JSON. They have no
  logic of their own to model.
- `randomColor` (`annotation/app.js:214-225`) draws from `Math.random` and
  only affects display.
- `editAnnotation`, `showNote`, the delete action, `debugBase64` and the
  export (`annotation/app.js:230-290`) are form, DOM and window I/O.
- IEEE-754 double arithmetic is not modelled. `0.0015`, `duration / length`,
  `0.25 / coef`, the products `index * coef * 10` and the division by 10
  are exact reals here, so a value within a rounding error of a threshold
  or of a half-tenth can land on the other side in JavaScript. NaN and
  infinite peaks or durations are outside the model.
- An empty peak array or a zero duration makes JavaScript divide by zero.
  `Timing.Extract` returns the empty list the code ends up with in both
  cases without performing the division. With no peaks there is no silent
  index. With a zero duration `minLen` is positive infinity, which no
  cluster reaches.
- Timing.ExtractSpans: states `end < duration + 0.05` rather than
  `end <= duration`, because the code's rounding can place the last end
  after the duration (`Scenarios.RoundedEndPastDuration`). It also requires
  a non-negative duration. A negative duration is modelled by `Timing.Extract`,
  but no property is proved for it.
- Timing.ExtractOrdered: requires a non-negative duration, like
  `Timing.ExtractSpans`. For a negative duration `coef` is negative, so
  later samples get earlier times and the spans are no longer in order of
  start; no property is proved for that case.
- Segments.IndexRegionsBounded: the non-empty-region part needs
  `minLen > 0`, which holds for every positive duration. For a negative
  duration the code's `minLen` is negative, and zero-length regions pass
  the filter.
