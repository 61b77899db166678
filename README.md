# Percentile and summary statistics of a load tester's histograms

This project models, in Dafny, the statistics engine of an HTTP load tester
(bombardier's `internal/test_info.go`). After a run, request latencies
(unsigned microseconds) and request rates (double-precision requests per
second) sit in two weighted histograms: each populated key carries an
occurrence count. `Results.LatenciesStats` and `Results.RequestsStats` turn
such a histogram and a list of requested percentiles into a summary: mean,
standard deviation, maximum, and a map from each percentile to a key.

Both operations run the same algorithm:

1. One pass over the buckets gathers the total count, the weighted sum, the
   maximum key and the list of (key, count) pairs. For request rates,
   infinite and NaN keys are skipped as if absent.
2. When the total count is zero the result is nil (`None` here).
3. The pairs are sorted ascending by key.
4. The requested percentiles are handled one by one:
   - a percentile already in the map is skipped;
   - one outside [0, 1] is dropped;
   - otherwise its rank is floor(p * count + 1/2). The sorted pairs are
     walked with a running total, and the first key at which the total
     reaches the rank is recorded.
5. Mean = sum / count. A second pass accumulates squared deviations. The
   standard deviation is sqrt(squares / count) when count > 2, else 0.

The model writes this algorithm once, generic over the key type. A
`KeyDomain` record carries what differs between the two histograms: the
order on keys, the keys to skip, the starting value of the running maximum
(0 in both), and the numeric value of a key.

- `latencies`: keys are `nat`, and no key is skipped.
- `requests`: keys are a `Float` datatype (a finite real, +Inf, -Inf or NaN),
  and the non-finite keys are skipped.

A histogram is a sequence of `Bucket(key, count)` in the order its traversal
visits them. The keys it keeps are distinct; skipped keys may repeat (a
float table can hold several NaN keys).

Files and modules:

- `wrappers.dfy` (`Wrappers`): `Option`.
- `keys.dfy` (`Keys`): `KeyDomain` and its validity: a strict total order on
  the keys that are not skipped.
- `histogram.dfy` (`Histogram`): the quantities the gathering pass computes:
  kept buckets, total count, cumulative counts, weighted sum, running
  maximum, squared deviations. It also expands a histogram into the raw
  samples it summarises.
- `sorting.dfy` (`Sorting`): a reference insertion sort on sequences and
  the in-place insertion sort of the bucket array. Because keys are
  distinct, the strictly sorted permutation is unique, so the array ends up
  equal to the reference sort.
- `percentiles.dfy` (`Percentiles`): the rank, the first-reaching search,
  the fold over the requests, and the loops that compute them.
- `stats.dfy` (`StatsEngine`): two reference definitions of the whole
  result. `StatsAsWritten` has the source's second pass, which adds each
  key's squared deviation once. `Stats` has the count-weighted second pass
  (see Findings). `ComputeStatsAsWritten` and `ComputeStats` are the
  step-by-step algorithm with either pass, proved equal to them. The lemmas
  state what the result promises. `AsWrittenDiffersOnlyInVariance` carries
  them over to the source's result for everything but the variance.
- `test_info.dfy` (`TestInfo`): the test-type and client-type enumerations
  and the `Spec` queries, the two key domains, `LatenciesStats` and
  `RequestsStats` (the source's operations, as written), and worked
  examples.

Two behaviours of the code are worth stating:

- A `Spec` whose `TestType` was never set (line 290, `_ = iota`) answers
  false to both test-type queries. The model has `TestType.NoTestType` for
  it.
- The running maximum starts at 0 and only grows (lines 128, 133-135, 206,
  217-219), so if every kept throughput key is negative the reported
  maximum is 0. `MaxIsLargestKey` states it this way.

## Model

| member | source | states |
|---|---|---|
| `StatsEngine.ComputeStatsAsWritten` | internal/test_info.go:124-187 | the gather, empty check, sort, percentile loop and per-bucket second pass compute exactly `StatsAsWritten(d, h, ps)` for any valid key domain and any histogram whose kept keys are distinct |
| `StatsEngine.ComputeStats` | internal/test_info.go:124-187 | the same steps with the count-weighted second pass compute exactly `Stats(d, h, ps)`, the corrected result (see Findings) |
| `StatsEngine.GatherAndSelect` | internal/test_info.go:124-170 | the steps before the second pass give the kept total count and, when it is at least 1, the result's mean, maximum and percentile map |
| `StatsEngine.Gather` | internal/test_info.go:132-140 | the gathering pass returns the kept buckets in visit order, their total count, their weighted sum Σ value(key)·count and the running maximum |
| `StatsEngine.DeviationsAsWritten` | internal/test_info.go:172-175 | the source's second pass returns the sum over kept buckets of (value − mean)², once per bucket |
| `StatsEngine.Deviations` | internal/test_info.go:172-175 | the corrected second pass returns the count-weighted sum of squared deviations over the kept buckets (see Findings) |
| `TestInfo.LatenciesStats` | internal/test_info.go:124-187 | the latency statistics are the source's result `StatsAsWritten` for unsigned keys with nothing excluded |
| `TestInfo.RequestsStats` | internal/test_info.go:202-277 | the throughput statistics are the source's result `StatsAsWritten` for floating-point keys with infinities and NaN excluded, whatever non-finite keys repeat |
| `StatsEngine.AsWrittenDiffersOnlyInVariance` | internal/test_info.go:170-186 | the source's result is absent exactly when the corrected one is; its mean, maximum and percentile map are the corrected result's, so every lemma below holds for them |
| `StatsEngine.AsWrittenAgreesOnUnitCounts` | internal/test_info.go:170-179 | when every kept bucket holds exactly one sample, the source's result equals the corrected one |
| `TestInfo.LatencyKeys` | internal/test_info.go:128-135 | unsigned keys under `<`, with a maximum starting at 0, form a valid key domain |
| `TestInfo.ThroughputKeys` | internal/test_info.go:206-219 | float keys under IEEE `<`, with exactly the non-finite keys excluded and a maximum starting at 0, form a valid key domain |
| `StatsEngine.AbsentIffNoSamples` | internal/test_info.go:141-143 | the result is absent exactly when the total count of the kept buckets is zero, whatever percentiles are requested |
| `StatsEngine.OutOfRangeDropped` | internal/test_info.go:154-157 | a requested percentile below 0 or above 1 is never a key of the percentile map |
| `StatsEngine.RequestOrderIrrelevant` | internal/test_info.go:150-153 | two request lists holding the same percentiles, in any order and with any repetitions, give the same result |
| `StatsEngine.PercentilesClosedForm` | internal/test_info.go:150-167 | the percentile map equals the map from each requested percentile that resolves to the key it resolves to on its own |
| `StatsEngine.EveryInRangeRequestResolved` | internal/test_info.go:158-166 | with at least one sample, the map's keys are exactly the distinct requested percentiles in [0, 1], so its size is their number |
| `StatsEngine.ResolvedIsFirstReachingBucket` | internal/test_info.go:146-166 | a resolved percentile p is in [0, 1] and was requested; its value is the key of the first sorted bucket whose cumulative count reaches floor(p·n + 1/2), and that bucket is in the histogram |
| `StatsEngine.PercentilesMonotone` | internal/test_info.go:146-166 | for resolved p1 ≤ p2, the key at p1 is at most the key at p2 |
| `StatsEngine.PercentileZeroIsSmallestKey` | internal/test_info.go:158-166 | percentile 0, when requested, resolves to a kept key no larger than any kept key |
| `StatsEngine.PercentileOneIsLargestNonzeroKey` | internal/test_info.go:158-166 | percentile 1, when requested, resolves to a kept key with nonzero count, and every kept key with nonzero count is at most it |
| `StatsEngine.MaxIsLargestKey` | internal/test_info.go:128-135 | the maximum is at least 0 and at least every kept key, and it is 0 or one of the kept keys |
| `StatsEngine.PercentilesBelowMax` | internal/test_info.go:160-166 | every resolved percentile is at most the maximum |
| `StatsEngine.SummaryMatchesSamples` | internal/test_info.go:170-179 | the mean is the mean of the raw samples the histogram summarises; the variance (squared standard deviation) is their mean squared deviation when there are more than two of them and 0 otherwise |
| `StatsEngine.ExcludedKeysIgnored` | internal/test_info.go:213-216 | the statistics of a histogram, both the source's and the corrected ones, equal those of the same histogram with its excluded keys removed; the second pass skips them too (lines 259-262), so the source's variance is unchanged |
| `StatsEngine.SortedBucketsFacts` | internal/test_info.go:146-148 | the sorted kept buckets are strictly ascending, contain exactly the histogram's non-excluded buckets, and keep the total count |
| `StatsEngine.SortedPairs` | internal/test_info.go:129-148 | the pairs copied into a fresh array and sorted in place by key equal the reference sort of the kept buckets |
| `Sorting.SortByKey` | internal/test_info.go:146-148 | sorting the pair array in place leaves it strictly ascending by key and a permutation of what it held |
| `Sorting.SortedUnique` | internal/test_info.go:146-148 | two strictly sorted sequences holding the same buckets are equal, so any correct sort gives the reference order |
| `Sorting.SortSorted` | internal/test_info.go:146-148 | the reference sort of kept buckets with distinct keys is strictly ascending and holds no excluded key |
| `Sorting.Sort` | internal/test_info.go:146-148 | the reference sort is a permutation of its input |
| `Sorting.SortTotalCount` | internal/test_info.go:146-148 | sorting keeps the total count |
| `Percentiles.Rank` | internal/test_info.go:158 | the rank of p in [0, 1] never exceeds the total count; it is 0 for p = 0 and the total for p = 1 |
| `Percentiles.RankMonotone` | internal/test_info.go:158 | a larger percentile never has a smaller rank |
| `Percentiles.Search` | internal/test_info.go:159-166 | the search yields the least index whose cumulative count reaches the rank, or nothing when no cumulative count does |
| `Percentiles.FirstReaching` | internal/test_info.go:159-166 | walking the sorted array with a running total yields the key of the first bucket whose cumulative count reaches the rank |
| `Percentiles.ResolveAll` | internal/test_info.go:149-167 | handling the requests in order (skip a resolved one, drop one outside [0, 1], rank, walk) builds exactly the fold `Resolve` |
| `Percentiles.ResolveClosedForm` | internal/test_info.go:150-167 | the fold over requests equals the map from every requested percentile that resolves on its own |
| `Percentiles.ResolveSameRequests` | internal/test_info.go:150-153 | request lists with the same members give the same percentile map |
| `Percentiles.PercentileZeroIsFirst` | internal/test_info.go:158-166 | with at least one sample, percentile 0 (rank 0) resolves to the first bucket's key |
| `Percentiles.PercentileOneIsLastNonzero` | internal/test_info.go:158-166 | over strictly sorted buckets with at least one sample, percentile 1 resolves to a key with nonzero count that is at least every key with nonzero count |
| `Percentiles.SearchMonotone` | internal/test_info.go:159-166 | when a larger rank resolves, a smaller one resolves too, at an index no later |
| `Percentiles.PercentileOfMonotone` | internal/test_info.go:158-166 | over strictly sorted buckets, a larger percentile resolves to a key no smaller |
| `Percentiles.InRangeResolves` | internal/test_info.go:158-166 | with a total count of at least one, every percentile in [0, 1] resolves |
| `Percentiles.FullRankSelectsLastNonzero` | internal/test_info.go:158-166 | rank = total count selects a bucket with nonzero count after which every bucket has count 0 |
| `Histogram.IncludedMembers` | internal/test_info.go:214-216 | the kept buckets are exactly the buckets whose keys are not excluded |
| `Histogram.IncludedDistinct` | internal/test_info.go:213-225 | skipping buckets keeps the keys distinct |
| `Histogram.IncludedIdempotent` | internal/test_info.go:214-216 | skipping excluded keys twice is skipping them once |
| `Histogram.MaxKeyBounds` | internal/test_info.go:133-135 | the running maximum is at least its start and every key, and it is its start or one of the keys |
| `Histogram.CountThroughMonotone` | internal/test_info.go:159-162 | cumulative counts never decrease along the buckets, grow by each later bucket's count, and never exceed the total |
| `Histogram.WeightedSumIsSampleSum` | internal/test_info.go:136 | the weighted sum of a histogram is the sum of the raw samples it summarises |
| `Histogram.SquaredDeviationsAreSampleDeviations` | internal/test_info.go:171-175 | the count-weighted squared deviations of a histogram are the squared deviations of its raw samples (the corrected second pass) |
| `Histogram.UnitCountDeviations` | internal/test_info.go:172-175 | with one sample per bucket, the per-bucket and the count-weighted sums of squared deviations agree |
| `TestInfo.TestTypeQueries` | internal/test_info.go:47-56 | `IsTimedTest` and `IsTestWithNumberOfReqs` never both hold, and one holds exactly when the test type was set |
| `TestInfo.ClientTypeQueries` | internal/test_info.go:58-74 | exactly one of `IsFastHTTP`, `IsNetHTTPV1`, `IsNetHTTPV2` holds |
| `TestInfo.LatencyExample` | internal/test_info.go:124-187 | latencies {100, 200, 300, 400} of one sample each, percentiles 0.5, 0.9, 1: mean 250, variance 12500, max 400, percentiles 200, 400, 400 |
| `TestInfo.LatencyExampleAsWritten` | internal/test_info.go:124-187 | on the same latencies, the source's result is the same summary |
| `TestInfo.ThroughputExample` | internal/test_info.go:202-277 | rates {10→2, NaN→5, +Inf→3, 20→1}, percentile 0.5, corrected result: only 10 and 20 count; mean 40/3, variance 200/9, max 20, percentile 10 |
| `TestInfo.ThroughputExampleAsWritten` | internal/test_info.go:202-277 | on the same rates, the source's result: mean 40/3, variance 500/27, max 20, percentile 10 |
| `TestInfo.UnweightedDeviationsUndercount` | internal/test_info.go:172-179 | for latencies {0→3, 4→1} (mean 1), the per-bucket pass sums 10 while the samples' squared deviations, and the weighted pass, sum 12; the source's variance is 2.5 where the samples' is 3 |

## Findings

| source | as written | input that shows it | evidently intended | confidence | as-written member | corrected member |
|---|---|---|---|---|---|---|
| internal/test_info.go:172-175, 259-265 | the second pass adds (f − mean)² once per bucket, then divides by the total weighted count | latencies {0→3, 4→1}: mean 1; the pass sums 1 + 9 = 10, giving variance 2.5, while the four samples 0, 0, 0, 4 have squared deviations 12 and variance 3 | each bucket's squared deviation weighted by its count, like the mean, so the standard deviation is that of the samples | not executed; high (the mean in the same function is count-weighted) | `StatsEngine.ComputeStatsAsWritten`, `StatsEngine.DeviationsAsWritten`, `TestInfo.UnweightedDeviationsUndercount` | `StatsEngine.ComputeStats`, `StatsEngine.Deviations`, `Histogram.SquaredDeviationsAreSampleDeviations`, `StatsEngine.SummaryMatchesSamples` |

## Left out

- StatsEngine.ComputeStats: computes the corrected, count-weighted variance (see Findings). The source's own variance is `StatsEngine.ComputeStatsAsWritten`, which `LatenciesStats` and `RequestsStats` call.
- StatsEngine.Deviations: the corrected second pass. `StatsEngine.DeviationsAsWritten` is the source's.
- TestInfo.ThroughputExample: states the corrected variance 200/9. The source's 500/27 is `TestInfo.ThroughputExampleAsWritten`.
- StatsEngine.SummaryMatchesSamples: holds for the corrected result only. The source's variance matches the samples only when each kept bucket holds one sample (`StatsEngine.AsWrittenAgreesOnUnitCounts`).
- StatsEngine.ComputeStats and StatsEngine.ComputeStatsAsWritten: the mean, the variance, the sums and the rank use exact rational arithmetic. Float64 rounding is not modelled. This includes the rounding of `uint64(pc*float64(count) + 0.5)` for counts above 2^53.
- StatsEngine.Summary: holds the variance, the square of the reported standard deviation. The square root is not modelled.
- `sum += f * c`, `count += c` and the running `total` are unbounded. Go's uint64 wrap-around is not modelled.
- Percentile requests are reals. NaN requests, and the distinction between -0.0 and +0.0 as map keys, are not modelled. A `Float` key is a real, so -0.0 and +0.0 are one key. The single `NaN` value stands for every NaN; repeated NaN keys are allowed because they are skipped.
- `Results.Throughput` (lines 105-109) is not modelled: it is a single float division, non-finite when the time taken is zero.
- The histogram implementations behind `ReadonlyUint64Histogram` and `ReadonlyFloat64Histogram` (lines 91-103) are not part of this model. A histogram is the sequence of buckets its `VisitAll` reports. `Get` and `Count` are not used by the engine, except `Count` as a capacity hint.
- The record fields of `Spec` and `Results` without behaviour are not modelled: URLs, headers, body, certificate paths, timeouts, rate, byte and status-code counters, errors. Neither are `TestInfo`, `Header` and `ErrorWithCount`.
- `TestType` and `ClientType` are Go `int`s, so any integer is a value. Integer values outside the named constants are not modelled, except `TestType`'s zero. For example, a `ClientType` of 3 would answer false to all three client queries.
- Go's result pointers are `Option` values, and the Go maps are Dafny maps.
