/**
 * The statistics engine shared by the latency and the throughput
 * histograms: one gathering pass (total count, weighted sum, maximum key,
 * the list of kept buckets), the empty check, the sort by key, and the
 * percentile selection, then a second pass for the squared deviations.
 * `StatsAsWritten` is the whole result as the source computes it, with one
 * squared deviation per bucket; `Stats` is the result with the
 * count-weighted second pass. `ComputeStatsAsWritten` and `ComputeStats` are
 * the step-by-step algorithms, proved equal to them.
 */
module StatsEngine {
  import opened Wrappers
  import opened Keys
  import opened Histogram
  import opened Sorting
  import opened Percentiles

  /** The summary statistics: the mean, the variance (the square of the
      reported standard deviation), the maximum key observed and the map
      from each resolved percentile to its key. */
  datatype Summary<K> = Summary(mean: real, variance: real, max: K, percentiles: map<real, K>)

  /** Mean squared deviation over `n` samples; reported as 0 for two samples or fewer. */
  function Variance(n: nat, squares: real): real {
    if n > 2 then squares / n as real else 0.0
  }

  /** The kept buckets, sorted ascending by key. */
  function SortedBuckets<K(!new)>(d: KeyDomain<K>, h: seq<Bucket<K>>): seq<Bucket<K>> {
    Sort(d, Included(d, h))
  }

  /** The statistics of histogram `h` for the requested percentiles `ps`; None when it holds no sample. */
  function Stats<K(!new)>(d: KeyDomain<K>, h: seq<Bucket<K>>, ps: seq<real>): Option<Summary<K>> {
    var kept := Included(d, h);
    var n := TotalCount(kept);
    if n < 1 then None
    else
      var mean := WeightedSum(d, kept) / n as real;
      Some(Summary(mean, Variance(n, SquaredDeviations(d, kept, mean)), MaxKey(d, kept), Resolve(Sort(d, kept), n, ps)))
  }

  /** The statistics as the source computes them: as `Stats`, except that the
      second pass adds each kept key's squared deviation once, whatever its count. */
  function StatsAsWritten<K(!new)>(d: KeyDomain<K>, h: seq<Bucket<K>>, ps: seq<real>): Option<Summary<K>> {
    match Stats(d, h, ps)
    case None => None
    case Some(st) =>
      var kept := Included(d, h);
      Some(st.(variance := Variance(TotalCount(kept), SquaredDeviationsAsWritten(d, kept, st.mean))))
  }

  /** The gathering pass: one visit of every bucket, skipping excluded keys. */
  method Gather<K(!new)>(d: KeyDomain<K>, h: seq<Bucket<K>>) returns (pairs: seq<Bucket<K>>, count: nat, sum: real, max: K)
    ensures pairs == Included(d, h)
    ensures count == TotalCount(pairs) && sum == WeightedSum(d, pairs) && max == MaxKey(d, pairs)
  {
    pairs, count, sum, max := [], 0, 0.0, d.zero;
    for i := 0 to |h|
      invariant pairs == Included(d, h[..i])
      invariant count == TotalCount(pairs) && sum == WeightedSum(d, pairs) && max == MaxKey(d, pairs)
    {
      var b := h[i];
      assert h[..i + 1][..i] == h[..i];
      if !d.excluded(b.key) {
        assert (pairs + [b])[..|pairs|] == pairs;
        if d.lt(max, b.key) {
          max := b.key;
        }
        sum := sum + d.value(b.key) * b.count as real;
        count := count + b.count;
        pairs := pairs + [b];
      } else {
        assert pairs + [] == pairs;
      }
    }
    assert h[..|h|] == h;
  }

  /** The second pass: squared deviations from the mean, skipping excluded keys. */
  method Deviations<K(!new)>(d: KeyDomain<K>, h: seq<Bucket<K>>, mean: real) returns (squares: real)
    ensures squares == SquaredDeviations(d, Included(d, h), mean)
  {
    squares := 0.0;
    for i := 0 to |h|
      invariant squares == SquaredDeviations(d, Included(d, h[..i]), mean)
    {
      var b := h[i];
      assert h[..i + 1][..i] == h[..i];
      if !d.excluded(b.key) {
        var kept := Included(d, h[..i]);
        assert (kept + [b])[..|kept|] == kept;
        var dev := d.value(b.key) - mean;
        squares := squares + b.count as real * (dev * dev);
      } else {
        assert Included(d, h[..i]) + [] == Included(d, h[..i]);
      }
    }
    assert h[..|h|] == h;
  }

  /** The second pass as the source writes it: one squared deviation per kept bucket. */
  method DeviationsAsWritten<K(!new)>(d: KeyDomain<K>, h: seq<Bucket<K>>, mean: real) returns (squares: real)
    ensures squares == SquaredDeviationsAsWritten(d, Included(d, h), mean)
  {
    squares := 0.0;
    for i := 0 to |h|
      invariant squares == SquaredDeviationsAsWritten(d, Included(d, h[..i]), mean)
    {
      var b := h[i];
      assert h[..i + 1][..i] == h[..i];
      if !d.excluded(b.key) {
        var kept := Included(d, h[..i]);
        assert (kept + [b])[..|kept|] == kept;
        var dev := d.value(b.key) - mean;
        squares := squares + dev * dev;
      } else {
        assert Included(d, h[..i]) + [] == Included(d, h[..i]);
      }
    }
    assert h[..|h|] == h;
  }

  /** Copy the kept pairs into a fresh array and sort it in place; the result is the reference sort. */
  method SortedPairs<K(!new)>(d: KeyDomain<K>, pairs: seq<Bucket<K>>) returns (a: array<Bucket<K>>)
    requires d.Valid() && AllIncluded(d, pairs) && DistinctKeys(pairs)
    ensures fresh(a) && a[..] == Sort(d, pairs)
  {
    a := new Bucket<K>[|pairs|](i requires 0 <= i < |pairs| => pairs[i]);
    assert a[..] == pairs;
    SortByKey(d, a);
    SortSorted(d, pairs);
    SortedUnique(d, Sort(d, pairs), a[..]);
  }

  /** Everything before the second pass: gather, check for no data, sort, select percentiles, mean. */
  method GatherAndSelect<K(!new)>(d: KeyDomain<K>, h: seq<Bucket<K>>, ps: seq<real>)
      returns (count: nat, mean: real, max: K, m: map<real, K>)
    requires d.Valid() && DistinctKeys(Included(d, h))
    ensures count == TotalCount(Included(d, h))
    ensures count >= 1 ==> Stats(d, h, ps) == Some(Summary(mean, Stats(d, h, ps).value.variance, max, m))
  {
    var pairs, sum;
    pairs, count, sum, max := Gather(d, h);
    if count < 1 {
      return count, 0.0, max, map[];
    }
    IncludedMembers(d, h);
    var a := SortedPairs(d, pairs);
    m := ResolveAll(a, count, ps);
    mean := sum / count as real;
  }

  /** The whole computation with the count-weighted second pass. */
  method ComputeStats<K(!new)>(d: KeyDomain<K>, h: seq<Bucket<K>>, ps: seq<real>) returns (r: Option<Summary<K>>)
    requires d.Valid() && DistinctKeys(Included(d, h))
    ensures r == Stats(d, h, ps)
  {
    var count, mean, max, m := GatherAndSelect(d, h, ps);
    if count < 1 {
      return None;
    }
    var squares := Deviations(d, h, mean);
    var variance := 0.0;
    if count > 2 {
      variance := squares / count as real;
    }
    assert variance == Variance(count, squares);
    r := Some(Summary(mean, variance, max, m));
  }

  /** The whole computation with the second pass as the source writes it. */
  method ComputeStatsAsWritten<K(!new)>(d: KeyDomain<K>, h: seq<Bucket<K>>, ps: seq<real>) returns (r: Option<Summary<K>>)
    requires d.Valid() && DistinctKeys(Included(d, h))
    ensures r == StatsAsWritten(d, h, ps)
  {
    var count, mean, max, m := GatherAndSelect(d, h, ps);
    if count < 1 {
      return None;
    }
    var squares := DeviationsAsWritten(d, h, mean);
    var variance := 0.0;
    if count > 2 {
      variance := squares / count as real;
    }
    assert variance == Variance(count, squares);
    r := Some(Summary(mean, variance, max, m));
  }

  /** Facts about the sorted kept buckets the selection walks. */
  lemma SortedBucketsFacts<K(!new)>(d: KeyDomain<K>, h: seq<Bucket<K>>)
    requires d.Valid() && DistinctKeys(Included(d, h))
    ensures StrictlySorted(d, SortedBuckets(d, h)) && AllIncluded(d, SortedBuckets(d, h))
    ensures TotalCount(SortedBuckets(d, h)) == TotalCount(Included(d, h))
    ensures forall b :: b in SortedBuckets(d, h) <==> b in h && !d.excluded(b.key)
  {
    var kept := Included(d, h);
    IncludedMembers(d, h);
    SortSorted(d, kept);
    SortTotalCount(d, kept);
    forall b ensures b in Sort(d, kept) <==> b in kept {
      assert b in Sort(d, kept) <==> b in multiset(Sort(d, kept));
    }
  }

  /** The percentile map of a non-empty histogram in closed form. */
  lemma PercentilesClosedForm<K(!new)>(d: KeyDomain<K>, h: seq<Bucket<K>>, ps: seq<real>)
    requires Stats(d, h, ps).Some?
    ensures var n := TotalCount(Included(d, h));
      Stats(d, h, ps).value.percentiles
        == map p | p in ps && PercentileOf(SortedBuckets(d, h), n, p).Some? :: PercentileOf(SortedBuckets(d, h), n, p).value
  {
    ResolveClosedForm(SortedBuckets(d, h), TotalCount(Included(d, h)), ps);
  }

  /** The result is absent exactly when the histogram holds no (kept) sample. */
  lemma AbsentIffNoSamples<K(!new)>(d: KeyDomain<K>, h: seq<Bucket<K>>, ps: seq<real>)
    ensures Stats(d, h, ps).None? <==> TotalCount(Included(d, h)) == 0
  {
  }

  /** A requested percentile outside [0, 1] never appears in the result. */
  lemma OutOfRangeDropped<K(!new)>(d: KeyDomain<K>, h: seq<Bucket<K>>, ps: seq<real>, p: real)
    requires Stats(d, h, ps).Some? && (p < 0.0 || p > 1.0)
    ensures p !in Stats(d, h, ps).value.percentiles
  {
    PercentilesClosedForm(d, h, ps);
  }

  /** Only the set of requested percentiles matters: neither their order nor their repetitions do. */
  lemma RequestOrderIrrelevant<K(!new)>(d: KeyDomain<K>, h: seq<Bucket<K>>, ps: seq<real>, qs: seq<real>)
    requires forall p :: p in ps <==> p in qs
    ensures Stats(d, h, ps) == Stats(d, h, qs)
  {
    ResolveSameRequests(SortedBuckets(d, h), TotalCount(Included(d, h)), ps, qs);
  }

  /** With at least one sample, the resolved percentiles are exactly the distinct requests in [0, 1]. */
  lemma EveryInRangeRequestResolved<K(!new)>(d: KeyDomain<K>, h: seq<Bucket<K>>, ps: seq<real>)
    requires d.Valid() && DistinctKeys(Included(d, h)) && Stats(d, h, ps).Some?
    ensures Stats(d, h, ps).value.percentiles.Keys == set p | p in ps && 0.0 <= p <= 1.0
    ensures |Stats(d, h, ps).value.percentiles| == |set p | p in ps && 0.0 <= p <= 1.0|
  {
    PercentilesClosedForm(d, h, ps);
    SortedBucketsFacts(d, h);
    forall p | p in ps && 0.0 <= p <= 1.0
      ensures PercentileOf(SortedBuckets(d, h), TotalCount(Included(d, h)), p).Some?
    {
      InRangeResolves(SortedBuckets(d, h), p);
    }
  }

  /** A resolved percentile p is the key of the first sorted bucket whose
      cumulative count reaches rank floor(p * n + 1/2), and that bucket is
      one of the histogram's. */
  lemma ResolvedIsFirstReachingBucket<K(!new)>(d: KeyDomain<K>, h: seq<Bucket<K>>, ps: seq<real>, p: real)
    requires d.Valid() && DistinctKeys(Included(d, h)) && Stats(d, h, ps).Some?
    requires p in Stats(d, h, ps).value.percentiles
    ensures 0.0 <= p <= 1.0 && p in ps
    ensures var s, n := SortedBuckets(d, h), TotalCount(Included(d, h));
      exists i :: 0 <= i < |s| && s[i].key == Stats(d, h, ps).value.percentiles[p]
        && CountThrough(s, i) >= Rank(p, n) && (forall j :: 0 <= j < i ==> CountThrough(s, j) < Rank(p, n))
        && s[i] in h
  {
    PercentilesClosedForm(d, h, ps);
    SortedBucketsFacts(d, h);
    var s, n := SortedBuckets(d, h), TotalCount(Included(d, h));
    var i := Search(s, Rank(p, n), 0).value;
    assert s[i] in s;
  }

  /** Percentiles are monotone: for p1 <= p2, the key at p1 is at most the key at p2. */
  lemma PercentilesMonotone<K(!new)>(d: KeyDomain<K>, h: seq<Bucket<K>>, ps: seq<real>, p1: real, p2: real)
    requires d.Valid() && DistinctKeys(Included(d, h)) && Stats(d, h, ps).Some?
    requires p1 in Stats(d, h, ps).value.percentiles && p2 in Stats(d, h, ps).value.percentiles && p1 <= p2
    ensures d.Le(Stats(d, h, ps).value.percentiles[p1], Stats(d, h, ps).value.percentiles[p2])
  {
    PercentilesClosedForm(d, h, ps);
    SortedBucketsFacts(d, h);
    PercentileOfMonotone(d, SortedBuckets(d, h), TotalCount(Included(d, h)), p1, p2);
  }

  /** Percentile 0 resolves to the smallest kept key of the histogram. */
  lemma PercentileZeroIsSmallestKey<K(!new)>(d: KeyDomain<K>, h: seq<Bucket<K>>, ps: seq<real>)
    requires d.Valid() && DistinctKeys(Included(d, h)) && Stats(d, h, ps).Some? && 0.0 in ps
    ensures 0.0 in Stats(d, h, ps).value.percentiles
    ensures var v := Stats(d, h, ps).value.percentiles[0.0];
      && (exists b :: b in h && !d.excluded(b.key) && b.key == v)
      && forall b :: b in h && !d.excluded(b.key) ==> d.Le(v, b.key)
  {
    PercentilesClosedForm(d, h, ps);
    SortedBucketsFacts(d, h);
    var s := SortedBuckets(d, h);
    PercentileZeroIsFirst(s);
    assert s[0] in s;
    forall b | b in h && !d.excluded(b.key) ensures d.Le(s[0].key, b.key) {
      assert b in s;
      var k :| 0 <= k < |s| && s[k] == b;
    }
  }

  /** Percentile 1 resolves to the largest key that carries a nonzero count. */
  lemma PercentileOneIsLargestNonzeroKey<K(!new)>(d: KeyDomain<K>, h: seq<Bucket<K>>, ps: seq<real>)
    requires d.Valid() && DistinctKeys(Included(d, h)) && Stats(d, h, ps).Some? && 1.0 in ps
    ensures 1.0 in Stats(d, h, ps).value.percentiles
    ensures var v := Stats(d, h, ps).value.percentiles[1.0];
      && (exists b :: b in h && !d.excluded(b.key) && b.count > 0 && b.key == v)
      && forall b :: b in h && !d.excluded(b.key) && b.count > 0 ==> d.Le(b.key, v)
  {
    PercentilesClosedForm(d, h, ps);
    SortedBucketsFacts(d, h);
    var s := SortedBuckets(d, h);
    PercentileOneIsLastNonzero(d, s);
    var v := PercentileOf(s, TotalCount(s), 1.0).value;
    var k :| 0 <= k < |s| && s[k].key == v && s[k].count > 0;
    assert s[k] in s;
    forall b | b in h && !d.excluded(b.key) && b.count > 0 ensures d.Le(b.key, v) {
      assert b in s;
      var m :| 0 <= m < |s| && s[m] == b;
    }
  }

  /** The maximum is at least every kept key, and it is one of them unless every key is below the initial `zero`. */
  lemma MaxIsLargestKey<K(!new)>(d: KeyDomain<K>, h: seq<Bucket<K>>, ps: seq<real>)
    requires d.Valid() && Stats(d, h, ps).Some?
    ensures var mx := Stats(d, h, ps).value.max;
      && d.Le(d.zero, mx)
      && (forall b :: b in h && !d.excluded(b.key) ==> d.Le(b.key, mx))
      && (mx == d.zero || exists b :: b in h && !d.excluded(b.key) && b.key == mx)
  {
    IncludedMembers(d, h);
    MaxKeyBounds(d, Included(d, h));
  }

  /** Every resolved percentile is at most the maximum. */
  lemma PercentilesBelowMax<K(!new)>(d: KeyDomain<K>, h: seq<Bucket<K>>, ps: seq<real>, p: real)
    requires d.Valid() && DistinctKeys(Included(d, h)) && Stats(d, h, ps).Some?
    requires p in Stats(d, h, ps).value.percentiles
    ensures d.Le(Stats(d, h, ps).value.percentiles[p], Stats(d, h, ps).value.max)
  {
    ResolvedIsFirstReachingBucket(d, h, ps, p);
    MaxIsLargestKey(d, h, ps);
    SortedBucketsFacts(d, h);
  }

  /** The mean and the variance are those of the raw samples the histogram
      summarises (the variance once there are more than two of them). */
  lemma SummaryMatchesSamples<K(!new)>(d: KeyDomain<K>, h: seq<Bucket<K>>, ps: seq<real>)
    requires Stats(d, h, ps).Some?
    ensures var xs, st := Samples(d, Included(d, h)), Stats(d, h, ps).value;
      && |xs| >= 1 && st.mean == SampleSum(xs) / |xs| as real
      && st.variance == if |xs| > 2 then SampleSquaredDeviations(xs, st.mean) / |xs| as real else 0.0
  {
    var kept := Included(d, h);
    WeightedSumIsSampleSum(d, kept);
    SquaredDeviationsAreSampleDeviations(d, kept, Stats(d, h, ps).value.mean);
  }

  /** Excluded keys count for nothing: the statistics equal those of the histogram with them removed. */
  lemma ExcludedKeysIgnored<K(!new)>(d: KeyDomain<K>, h: seq<Bucket<K>>, ps: seq<real>)
    ensures Stats(d, h, ps) == Stats(d, Included(d, h), ps)
    ensures StatsAsWritten(d, h, ps) == StatsAsWritten(d, Included(d, h), ps)
  {
    IncludedIdempotent(d, h);
  }

  /** The source's result differs from the count-weighted one in the variance only. */
  lemma AsWrittenDiffersOnlyInVariance<K(!new)>(d: KeyDomain<K>, h: seq<Bucket<K>>, ps: seq<real>)
    ensures StatsAsWritten(d, h, ps).None? <==> Stats(d, h, ps).None?
    ensures StatsAsWritten(d, h, ps).Some? ==>
      var a, c := StatsAsWritten(d, h, ps).value, Stats(d, h, ps).value;
      a.mean == c.mean && a.max == c.max && a.percentiles == c.percentiles
  {
  }

  /** When every kept bucket holds exactly one sample, the source's variance is the sample variance. */
  lemma AsWrittenAgreesOnUnitCounts<K(!new)>(d: KeyDomain<K>, h: seq<Bucket<K>>, ps: seq<real>)
    requires forall b :: b in h && !d.excluded(b.key) ==> b.count == 1
    ensures StatsAsWritten(d, h, ps) == Stats(d, h, ps)
  {
    var kept := Included(d, h);
    IncludedMembers(d, h);
    if Stats(d, h, ps).Some? {
      UnitCountDeviations(d, kept, Stats(d, h, ps).value.mean);
    }
  }
}
