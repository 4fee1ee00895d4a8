# Latency aggregation, modelled in Dafny

The repository serves two HTTP handlers that answer the same question about
network telemetry. A client posts a list of regions and a latency threshold
in milliseconds. For each region the handler reports four numbers:

- the mean latency;
- the 95th-percentile latency;
- the mean uptime;
- the number of "breaches", meaning samples whose latency is strictly above
  the threshold.

`api/latency.py` (`POST /latency`) reads a flat list of samples, each tagged
with its region. A region without samples gets a record of nulls with zero
breaches. `api/index.py` (`POST /`) reads telemetry already grouped by
region. A region without samples is left out of its response.

This project models the per-region aggregation of both handlers over Dafny
`real` numbers:

- the mean is the sum divided by the count;
- the percentile is numpy's default `linear` method (definition 7 of Hyndman
  and Fan, 1996). Sort ascending, take the rank `h = 0.95 * (n - 1)`, and
  interpolate between the sorted values at `floor(h)` and `floor(h) + 1`.
  When `h` reaches the last index, numpy clips both to the last value.

Modules, one per concept:

- `Wrappers`: `Option`, for JSON `null`.
- `Seqs`: mapping over a sequence, the shape of a permutation proof, and
  the loop that assigns one dict entry per key.
- `Sorting`: insertion sort, and the uniqueness of a sorted arrangement.
- `Statistics`: sum, mean, strict exceedance count, rank, interpolation and
  percentile. Sum, mean, count and percentile each have an order-invariance
  lemma.
- `Telemetry`: `Sample`, `Stats`, the request `Body` with its defaults, and
  `Summarize`, the statistics record shared by both handlers.
- `LatencyEndpoint`: the `/latency` handler (`api/latency.py`).
- `IndexEndpoint`: the `/` handler (`api/index.py`).
- `AbsenceConventions`: how the two handlers' responses relate once flat
  telemetry is grouped by region.

Three behaviours of the code are worth stating up front:

- The two handlers treat a region without samples differently.
  `api/latency.py:37-44` emits a record of nulls with zero breaches, while
  `api/index.py:32-33` leaves the region out. Each module models its own
  file, and `AbsenceConventions.ConventionsAgree` states how the two relate.
- numpy's linear method puts the 95th percentile of 10, 20, 30, 40 at 38.5
  (`Statistics.Percentile95Example`), between the two upper values rather
  than on either of them.
- Each handler assigns into a dict, so a region requested twice gives one key
  (`LatencyEndpoint.DuplicateRegionCollapses`).

## Model

| member | source | states |
|---|---|---|
| Telemetry.RequestedRegions | api/latency.py:32 | the regions evaluated are exactly the list the client sent, in its order; a body without `regions` asks for no regions (the same read happens at api/index.py:23) |
| Telemetry.Threshold | api/latency.py:33 | the threshold used is the one the client sent; a body without `threshold_ms` uses 180 (the same read happens at api/index.py:24) |
| LatencyEndpoint.DefaultThreshold | api/latency.py:33 | omitting `threshold_ms` gives the same `/latency` response as sending 180 |
| IndexEndpoint.DefaultThreshold | api/index.py:24 | omitting `threshold_ms` gives the same `/` response as sending 180 |
| LatencyEndpoint.SamplesIn | api/latency.py:36 | the region filter keeps every sample tagged with the region, as often as it occurs, and nothing else; no output is longer than the telemetry |
| LatencyEndpoint.NoSamplesIff | api/latency.py:36-37 | the filtered list is empty exactly when no telemetry sample carries the region |
| LatencyEndpoint.RegionReport | api/latency.py:36-53 | a region's record is the all-null record with 0 breaches exactly when no sample carries the region; otherwise the region's samples are non-empty and the record holds their latency sum divided by their count, the 95th percentile of their latencies, and their uptime sum divided by their count; breaches equal the number of telemetry positions holding a sample of that region with latency strictly above the threshold |
| LatencyEndpoint.RegionBreachCount | api/latency.py:47 | counting exceedances over the filtered latencies equals counting the region's breaching samples in the whole telemetry |
| Seqs.AssignEach | api/latency.py:34-35 | assigning one entry per key gives a dict whose keys are exactly the keys that occur, each mapped to its own value (the loop shape of api/latency.py:48) |
| Seqs.AssignEachSetOnly | api/latency.py:48 | the assigned dict depends only on which keys occur, not on their order or repetition |
| LatencyEndpoint.EvalFlat | api/latency.py:34-53 | the response's key set is exactly the set of requested regions, and each key maps to that region's record, whatever order or repetition the request has |
| LatencyEndpoint.LatencyMetrics | api/latency.py:32-54 | the handler's response has one key per requested region; a body without `regions` gives an empty object; each value is the region's record at the body's threshold |
| LatencyEndpoint.RequestOrderIrrelevant | api/latency.py:34-48 | two requests naming the same regions, in any order and with any repetition, get equal responses |
| LatencyEndpoint.DuplicateRegionCollapses | api/latency.py:48 | requesting an already-requested region again leaves the response unchanged |
| LatencyEndpoint.RegionReportIsolation | api/latency.py:36 | a region's record depends only on how many times each of that region's samples occurs; sample order and other regions' samples have no effect |
| LatencyEndpoint.OtherRegionsIrrelevant | api/latency.py:36 | adding samples of other regions to the telemetry leaves the region's record unchanged |
| Telemetry.Latencies | api/latency.py:45 | the latency column has one entry per sample, and each position holds that sample's `latency_ms` (also api/index.py:29) |
| Telemetry.Uptimes | api/latency.py:46 | the uptime column has one entry per sample, aligned with the latency column, and each position holds that sample's `uptime` (also api/index.py:30) |
| Telemetry.Summarize | api/latency.py:45-52 | for a non-empty sample list: the mean latency is the latency sum divided by the count and lies between the smallest and largest latency; the p95 is the 95th linear percentile of the latencies and lies in the same range; the mean uptime is the uptime sum of the same samples divided by the count and lies between their extremes; breaches equal the number of positions whose latency is strictly above the threshold; breaches equal the count exactly when every latency is above the threshold and are 0 exactly when none is |
| Telemetry.BreachCount | api/latency.py:47 | the exceedance count over the latency column equals the number of samples strictly above the threshold, with both extreme cases as if-and-only-ifs |
| Telemetry.SummarizeSingleSample | api/latency.py:49-51 | one sample is its own mean latency, its own p95 and its own mean uptime, with 1 breach exactly when its latency is above the threshold |
| Telemetry.SummarizePermutation | api/latency.py:45-51 | the statistics record depends on the multiset of samples only, not their order |
| Telemetry.ThresholdTieIsNoBreach | api/latency.py:47 | adding a sample whose latency equals the threshold does not change the breach count |
| Telemetry.BreachExample | api/latency.py:47 | latencies 100, 180, 181 and 300 at the default threshold give exactly 2 breaches |
| Statistics.CountAbove | api/index.py:38 | the strict exceedance count is at most the number of values; it equals the number of values exactly when all exceed the threshold, and is 0 exactly when none does |
| Statistics.CountAboveIsIndexCount | api/index.py:38 | the count equals the number of positions whose value is strictly above the threshold |
| Statistics.CountAbovePermutation | api/latency.py:47 | the exceedance count does not depend on the order of the values |
| Statistics.CountAboveConcat | api/index.py:38 | the count over a concatenation is the sum of the counts |
| Statistics.CountAboveAntitone | api/latency.py:47 | raising the threshold never increases the count |
| Statistics.Mean | api/latency.py:49 | the mean of a non-empty list lies between its smallest and largest value |
| Statistics.MeanPermutation | api/latency.py:49 | the mean does not depend on the order of the values |
| Statistics.MeanOfConstant | api/index.py:35 | the mean of copies of one value is that value |
| Statistics.SumPermutation | api/latency.py:49 | the sum does not depend on the order of the values |
| Statistics.SumBounds | api/latency.py:49 | values within `[lo, hi]` have a sum within `[lo * n, hi * n]` |
| Sorting.Sort | api/latency.py:50 | the sort returns an ascending permutation of its input |
| Sorting.Insert | api/latency.py:50 | inserting into an ascending list keeps it ascending and adds exactly the new value |
| Sorting.SortedUnique | api/latency.py:50 | two ascending lists with the same multiset of values are equal |
| Sorting.SortPermutation | api/latency.py:50 | sorting depends only on the multiset of values |
| Sorting.SortIdentity | api/latency.py:50 | an ascending input sorts to itself |
| Statistics.ScaledRank | api/latency.py:50 | the rank times 100 is the integer `p * (n - 1)`, at most `100 * (n - 1)`, and equal as a real to `p * (n - 1)` |
| Statistics.RankFloor | api/latency.py:50 | the integer part of the rank is a valid index |
| Statistics.RankFraction | api/latency.py:50 | the interpolation weight lies in `[0, 1)`, and with the integer part it makes up the rank `p/100 * (n - 1)` exactly |
| Statistics.Interpolate | api/latency.py:50 | on ascending values the result lies between the first and last value and between the two order statistics bracketing the rank; it is the lower one when the weight is 0 and the last value when the rank reaches the last index |
| Statistics.Percentile | api/latency.py:50 | the linear percentile lies between the smallest and largest value, and is the value itself for a single sample |
| Statistics.PercentilePermutation | api/index.py:36 | the percentile does not depend on the order of the values |
| Statistics.PercentileExtremes | api/index.py:36 | the 0th percentile is the minimum and the 100th is the maximum |
| Statistics.SortedEnds | api/latency.py:50 | the first and last sorted values are the minimum and maximum |
| Statistics.Interpolate95Example | api/latency.py:50 | interpolation at rank 2.85 over 10, 20, 30, 40 gives 38.5 |
| Statistics.Percentile95Example | api/latency.py:50 | the 95th percentile of 10, 20, 30, 40 is 38.5 |
| IndexEndpoint.Lookup | api/index.py:28 | a region present in the telemetry map gets its stored list unchanged, and a region missing from it gets an empty sample list |
| IndexEndpoint.StoredRegionFieldIgnored | api/index.py:28-30 | `/` uses the list stored under a region whatever `region` field its samples carry: a sample marked "us" stored under "eu" yields an entry for "eu" |
| IndexEndpoint.EvalMap | api/index.py:26-45 | a requested region is a key exactly when it has at least one sample; every key is a requested region present in the telemetry map; each value is the statistics record of that region's own list |
| IndexEndpoint.CheckLatency | api/index.py:23-47 | a region is a key of the response exactly when the body requests it and it has at least one sample; a body without `regions` gives an empty object; each key maps to the statistics of that region's own sample list, with at most as many breaches as samples |
| IndexEndpoint.RegionIsolation | api/index.py:28-45 | a region's presence and entry depend only on the multiset of samples stored under that region; other regions' entries and the sample order have no effect |
| AbsenceConventions.Partition | api/index.py:28 | grouping a flat list by region gives a map whose keys are exactly the regions that occur; every region, present or not, looks up its filtered samples |
| AbsenceConventions.ConventionsAgree | api/index.py:32-33 | on grouped telemetry, `/` omits a requested region exactly when `/latency` reports the all-null record for it (api/latency.py:37-44); otherwise both carry the same statistics |

## Left out

- FastAPI app creation, CORS middleware and async JSON body parsing are left out (api/latency.py:9-18,29-31; api/index.py:6-14,20-22). They are framework I/O. The parsed body is the `Body` datatype.
- Serialising the response with `JSONResponse` or as a plain dict is left out (api/latency.py:54; api/index.py:47). It is framework I/O. The response is a Dafny `map`, so dict insertion order is not modelled.
- Loading telemetry from files is left out: path probing, `open`, and `json.loads` per line or `json.load` (api/latency.py:20-27; api/index.py:16-18). This is file I/O. The loaded data is a parameter: a `seq<Sample>` for `/latency` and a `map<string, seq<Sample>>` for `/`.
- `/` ignores the `region` field of the samples stored in its map. The model reuses `Sample` there and never reads that field (`IndexEndpoint.StoredRegionFieldIgnored`).
- Latencies, uptimes and the threshold are mathematical reals. The model leaves out IEEE-754 rounding, NaN and infinities, numpy's pairwise summation and its lerp formula, and the `float(...)`/`int(...)` casts. Over the reals each of these equals the stated sum/count mean and interpolation.
- Request values outside the `Body` type are left out: `regions` must be a list of strings and `threshold_ms` a number. The source behaves as follows on such values; the model covers none of these cases.
  - A number, boolean or `null` entry in `regions` does not raise. `/latency` selects the records whose `region` equals it under Python's `==` (api/latency.py:36). A `null` entry therefore selects every record that has no `region` key or has `"region": null`, and `/latency` reports their statistics. An entry that no record matches gets the all-null record (api/latency.py:37-43). `/` looks the entry up among string keys, finds nothing, and omits it (api/index.py:28,32-33).
  - A list or object entry in `regions` raises, because it cannot be a dict key (api/latency.py:38, api/index.py:28).
  - A string given as `regions` is iterated character by character, each character becoming a requested region (api/latency.py:35, api/index.py:27).
  - A `regions` value of `null` raises when iterated (api/latency.py:35, api/index.py:27).
  - A boolean `threshold_ms` does not raise: Python treats `true` and `false` as 1 and 0 in the comparisons (api/latency.py:47, api/index.py:38).
  - A string, `null` or object `threshold_ms` raises at the comparison, so only when some requested region has samples (api/latency.py:47, api/index.py:38).
  - A list `threshold_ms` raises in `/` (api/index.py:38). In `/latency`, numpy compares it element-wise when its length broadcasts against the latencies (api/latency.py:47).
- Telemetry records that would make the source raise are left out. A record without `latency_ms` or `uptime` raises `KeyError` once its region is requested (api/latency.py:45-46, api/index.py:29-30). Every modelled `Sample` carries both fields.
- A flat-telemetry record without a `region` key, or with `"region": null`, is left out. In the source, `r.get("region")` returns `None` for it. That matches no requested string region, but it does match a `null` entry in `regions` (see above). Every modelled `Sample` carries a string region.
- Statistics.Mean: its contract gives the bounds only. The exact value, the sum divided by the count, is stated by `Telemetry.Summarize` for both the latency and the uptime mean.
- Statistics.Interpolate: its contract brackets the result between the two order statistics around the rank and pins the zero-weight and last-index cases. The exact interpolated value `s[k] + g * (s[k + 1] - s[k])` is the function's definition. `Statistics.Percentile`, and through it `Telemetry.Summarize` and `LatencyEndpoint.RegionReport`, reach it by applying that definition to the sorted values. `RankFloor` and `RankFraction` state the rank split `k + g == p * (n - 1) / 100` that it uses.
