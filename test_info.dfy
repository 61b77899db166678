/**
 * The test description and results record of the load tester, and the two
 * instantiations of the statistics engine: latencies, keyed by unsigned
 * microseconds, and request rates, keyed by floating-point requests per
 * second, whose non-finite samples are skipped.
 */
module TestInfo {
  import opened Wrappers
  import opened Keys
  import opened Histogram
  import opened Sorting
  import opened Percentiles
  import opened StatsEngine

  /** How a test terminates. The enumeration's zero value is unnamed, so a
      test description that never set it is neither kind. */
  datatype TestType = NoTestType | ByTime | ByNumberOfReqs

  /** Which HTTP client ran the test; FastHTTP is the zero value. */
  datatype ClientType = FastHTTP | NetHTTP1 | NetHTTP2

  /** The parts of a test description that its queries look at. */
  datatype Spec = Spec(testType: TestType, clientType: ClientType)
  {
    predicate IsTimedTest() { testType == ByTime }
    predicate IsTestWithNumberOfReqs() { testType == ByNumberOfReqs }
    predicate IsFastHTTP() { clientType == FastHTTP }
    predicate IsNetHTTPV1() { clientType == NetHTTP1 }
    predicate IsNetHTTPV2() { clientType == NetHTTP2 }
  }

  /** A test is never both timed and limited by the number of requests; it
      is one of the two exactly when its test type was set. */
  lemma TestTypeQueries(s: Spec)
    ensures !(s.IsTimedTest() && s.IsTestWithNumberOfReqs())
    ensures s.IsTimedTest() || s.IsTestWithNumberOfReqs() <==> s.testType != NoTestType
  {
  }

  /** Exactly one client query holds. */
  lemma ClientTypeQueries(s: Spec)
    ensures s.IsFastHTTP() || s.IsNetHTTPV1() || s.IsNetHTTPV2()
    ensures !(s.IsFastHTTP() && s.IsNetHTTPV1()) && !(s.IsFastHTTP() && s.IsNetHTTPV2()) && !(s.IsNetHTTPV1() && s.IsNetHTTPV2())
  {
  }

  /** A double-precision key: a finite value, an infinity, or not-a-number. */
  datatype Float = Finite(r: real) | PosInf | NegInf | NaN

  /** The `<` comparison on such keys: NaN is unordered, the infinities bound the finite values. */
  function FloatLess(a: Float, b: Float): bool {
    match (a, b)
    case (NaN, _) => false
    case (_, NaN) => false
    case (NegInf, NegInf) => false
    case (NegInf, _) => true
    case (_, NegInf) => false
    case (PosInf, _) => false
    case (_, PosInf) => true
    case (Finite(x), Finite(y)) => x < y
  }

  /** Latency keys: unsigned integers, none excluded, the maximum starts at 0. */
  function LatencyKeys(): (d: KeyDomain<nat>)
    ensures d.Valid()
  {
    KeyDomain((a: nat, b: nat) => a < b, (k: nat) => false, 0, (k: nat) => k as real)
  }

  /** Throughput keys: infinities and NaN are excluded, the maximum starts at 0. */
  function ThroughputKeys(): (d: KeyDomain<Float>)
    ensures d.Valid()
    ensures forall k :: d.excluded(k) <==> !k.Finite?
  {
    KeyDomain(FloatLess, (k: Float) => !k.Finite?, Finite(0.0), (k: Float) => if k.Finite? then k.r else 0.0)
  }

  /** The histograms of a finished test. */
  datatype Results = Results(latencies: seq<Bucket<nat>>, requests: seq<Bucket<Float>>)

  method LatenciesStats(res: Results, percentiles: seq<real>) returns (r: Option<Summary<nat>>)
    requires DistinctKeys(Included(LatencyKeys(), res.latencies))
    ensures r == StatsAsWritten(LatencyKeys(), res.latencies, percentiles)
  {
    r := ComputeStatsAsWritten(LatencyKeys(), res.latencies, percentiles);
  }

  method RequestsStats(res: Results, percentiles: seq<real>) returns (r: Option<Summary<Float>>)
    requires DistinctKeys(Included(ThroughputKeys(), res.requests))
    ensures r == StatsAsWritten(ThroughputKeys(), res.requests, percentiles)
  {
    r := ComputeStatsAsWritten(ThroughputKeys(), res.requests, percentiles);
  }

  /** The histogram of the latency example: four buckets of one sample each. */
  function ExampleLatencies(): seq<Bucket<nat>> {
    [Bucket(100, 1), Bucket(200, 1), Bucket(300, 1), Bucket(400, 1)]
  }

  lemma LatencyExampleGather()
    ensures var h := ExampleLatencies();
      Included(LatencyKeys(), h) == h && TotalCount(h) == 4
      && WeightedSum(LatencyKeys(), h) == 1000.0 && MaxKey(LatencyKeys(), h) == 400
  {
    var d := LatencyKeys();
    var h := ExampleLatencies();
    assert h[..1][..0] == [] && h[..2][..1] == h[..1] && h[..3][..2] == h[..2] && h[..3] == h[..|h| - 1];
    assert Included(d, h[..1]) == h[..1] && TotalCount(h[..1]) == 1;
    assert Included(d, h[..2]) == h[..2] && TotalCount(h[..2]) == 2;
    assert Included(d, h[..3]) == h[..3] && TotalCount(h[..3]) == 3;
    assert WeightedSum(d, h[..1]) == 100.0 && WeightedSum(d, h[..2]) == 300.0 && WeightedSum(d, h[..3]) == 600.0;
    assert MaxKey(d, h[..1]) == 100 && MaxKey(d, h[..2]) == 200 && MaxKey(d, h[..3]) == 300;
  }

  lemma LatencyExampleDeviations()
    ensures SquaredDeviations(LatencyKeys(), ExampleLatencies(), 250.0) == 50000.0
  {
    var d := LatencyKeys();
    var h := ExampleLatencies();
    assert h[..1][..0] == [] && h[..2][..1] == h[..1] && h[..3][..2] == h[..2] && h[..3] == h[..|h| - 1];
    assert SquaredDeviations(d, h[..1], 250.0) == 22500.0;
    assert SquaredDeviations(d, h[..2], 250.0) == 25000.0;
    assert SquaredDeviations(d, h[..3], 250.0) == 27500.0;
  }

  lemma LatencyExampleSelect()
    ensures var h := ExampleLatencies();
      Select(h, 2) == Some(200) && Select(h, 4) == Some(400)
  {
    var h := ExampleLatencies();
    assert h[..1][..0] == [] && h[..2][..1] == h[..1] && h[..3][..2] == h[..2] && h[..4][..3] == h[..3];
    assert CountThrough(h, 0) == 1 && CountThrough(h, 1) == 2 && CountThrough(h, 2) == 3 && CountThrough(h, 3) == 4;
  }

  /** Four equally weighted latency buckets, percentiles 0.5, 0.9 and 1:
      ranks 2, 4 and 4 select 200, 400 and 400; the mean is 250. */
  lemma LatencyExample(h: seq<Bucket<nat>>, ps: seq<real>)
    requires h == ExampleLatencies() && ps == [0.5, 0.9, 1.0]
    ensures Stats(LatencyKeys(), h, ps) == Some(Summary(250.0, 12500.0, 400, map[0.5 := 200, 0.9 := 400, 1.0 := 400]))
  {
    LatencyExampleGather();
    LatencyExampleSorted();
    LatencyExampleResolve();
    var d := LatencyKeys();
    assert Included(d, h) == h;
    assert Sort(d, Included(d, h)) == h;
    assert TotalCount(Included(d, h)) == 4;
    var st := Stats(d, h, ps).value;
    assert st.mean == 1000.0 / 4.0;
    LatencyExampleDeviations();
    assert st.variance == 50000.0 / 4.0;
    assert st.max == 400;
    assert st.percentiles == map[0.5 := 200, 0.9 := 400, 1.0 := 400];
  }

  /** With one sample per latency, the source's per-bucket second pass gives the same result. */
  lemma LatencyExampleAsWritten(h: seq<Bucket<nat>>, ps: seq<real>)
    requires h == ExampleLatencies() && ps == [0.5, 0.9, 1.0]
    ensures StatsAsWritten(LatencyKeys(), h, ps) == Some(Summary(250.0, 12500.0, 400, map[0.5 := 200, 0.9 := 400, 1.0 := 400]))
  {
    assert forall b :: b in h ==> b.count == 1;
    AsWrittenAgreesOnUnitCounts(LatencyKeys(), h, ps);
    LatencyExample(h, ps);
  }

  lemma LatencyExampleSorted()
    ensures Sort(LatencyKeys(), ExampleLatencies()) == ExampleLatencies()
  {
    var d := LatencyKeys();
    var h := ExampleLatencies();
    assert StrictlySorted(d, h) && DistinctKeys(h) && AllIncluded(d, h);
    SortSorted(d, h);
    SortedUnique(d, Sort(d, h), h);
  }

  lemma LatencyExampleResolve()
    ensures Resolve(ExampleLatencies(), 4, [0.5, 0.9, 1.0]) == map[0.5 := 200, 0.9 := 400, 1.0 := 400]
  {
    var h := ExampleLatencies();
    assert Rank(0.5, 4) == 2 && Rank(0.9, 4) == 4 && Rank(1.0, 4) == 4;
    LatencyExampleSelect();
    var ps := [0.5, 0.9, 1.0];
    assert ps[..2][..1] == ps[..1] && ps[..1][..0] == [] && ps[..2] == ps[..|ps| - 1];
    assert Resolve(h, 4, ps[..1]) == map[0.5 := 200];
    assert Resolve(h, 4, ps[..2]) == map[0.5 := 200, 0.9 := 400];
  }

  /** The histogram of the throughput example: 10 twice, NaN five times, +Inf three times, 20 once. */
  function ExampleRates(): seq<Bucket<Float>> {
    [Bucket(Finite(10.0), 2), Bucket(NaN, 5), Bucket(PosInf, 3), Bucket(Finite(20.0), 1)]
  }

  lemma ThroughputExampleGather()
    ensures var kept := [Bucket(Finite(10.0), 2), Bucket(Finite(20.0), 1)];
      Included(ThroughputKeys(), ExampleRates()) == kept && TotalCount(kept) == 3
      && WeightedSum(ThroughputKeys(), kept) == 40.0 && MaxKey(ThroughputKeys(), kept) == Finite(20.0)
  {
    var d := ThroughputKeys();
    var h := ExampleRates();
    var kept := [Bucket(Finite(10.0), 2), Bucket(Finite(20.0), 1)];
    assert h[..1][..0] == [] && h[..2][..1] == h[..1] && h[..3][..2] == h[..2] && h[..3] == h[..|h| - 1];
    assert Included(d, h[..1]) == h[..1];
    assert Included(d, h[..2]) == h[..1];
    assert Included(d, h[..3]) == h[..1];
    assert kept[..1] == h[..1] && kept[..1][..0] == [];
  }

  lemma ThroughputExampleDetails()
    ensures var kept := [Bucket(Finite(10.0), 2), Bucket(Finite(20.0), 1)];
      && Sort(ThroughputKeys(), kept) == kept
      && Resolve(kept, 3, [0.5]) == map[0.5 := Finite(10.0)]
      && SquaredDeviations(ThroughputKeys(), kept, 40.0 / 3.0) == 200.0 / 3.0
      && SquaredDeviationsAsWritten(ThroughputKeys(), kept, 40.0 / 3.0) == 500.0 / 9.0
  {
    var d := ThroughputKeys();
    var kept := [Bucket(Finite(10.0), 2), Bucket(Finite(20.0), 1)];
    SortSorted(d, kept);
    SortedUnique(d, Sort(d, kept), kept);
    assert Rank(0.5, 3) == 2;
    assert kept[..1][..0] == [];
    assert CountThrough(kept, 0) == 2;
    assert [0.5][..0] == [];
    assert SquaredDeviations(d, kept[..1], 40.0 / 3.0) == 200.0 / 9.0;
    assert SquaredDeviationsAsWritten(d, kept[..1], 40.0 / 3.0) == 100.0 / 9.0;
  }

  /** Non-finite throughput samples are skipped: only 10 (twice) and 20
      (once) remain, the mean is 40/3 and percentile 0.5 (rank 2) is 10. */
  lemma ThroughputExample(h: seq<Bucket<Float>>, ps: seq<real>)
    requires h == ExampleRates() && ps == [0.5]
    ensures Stats(ThroughputKeys(), h, ps) == Some(Summary(40.0 / 3.0, 200.0 / 9.0, Finite(20.0), map[0.5 := Finite(10.0)]))
  {
    var d := ThroughputKeys();
    var kept := [Bucket(Finite(10.0), 2), Bucket(Finite(20.0), 1)];
    ThroughputExampleGather();
    ThroughputExampleDetails();
    assert Included(d, h) == kept;
    assert Sort(d, Included(d, h)) == kept;
    var st := Stats(d, h, ps).value;
    assert st.mean == 40.0 / 3.0;
    assert st.variance == (200.0 / 3.0) / 3.0;
    assert st.max == Finite(20.0);
    assert st.percentiles == map[0.5 := Finite(10.0)];
  }

  /** On the same rates, the source's per-bucket second pass gives 500/27
      where the count-weighted pass gives 200/9; everything else agrees. */
  lemma ThroughputExampleAsWritten(h: seq<Bucket<Float>>, ps: seq<real>)
    requires h == ExampleRates() && ps == [0.5]
    ensures StatsAsWritten(ThroughputKeys(), h, ps) == Some(Summary(40.0 / 3.0, 500.0 / 27.0, Finite(20.0), map[0.5 := Finite(10.0)]))
  {
    var d := ThroughputKeys();
    var kept := [Bucket(Finite(10.0), 2), Bucket(Finite(20.0), 1)];
    ThroughputExample(h, ps);
    ThroughputExampleGather();
    ThroughputExampleDetails();
    assert Included(d, h) == kept;
    assert StatsAsWritten(d, h, ps).value.variance == (500.0 / 9.0) / 3.0;
  }

  /** The source's second pass adds one squared deviation per bucket. For
      three latency samples of 0 and one of 4 (mean 1) it sums 1 + 9 = 10,
      while the squared deviations of the four samples sum to
      1 + 1 + 1 + 9 = 12, which is what the weighted pass computes. */
  lemma UnweightedDeviationsUndercount(h: seq<Bucket<nat>>)
    requires h == [Bucket(0, 3), Bucket(4, 1)]
    ensures WeightedSum(LatencyKeys(), h) / TotalCount(h) as real == 1.0
    ensures SquaredDeviationsAsWritten(LatencyKeys(), h, 1.0) == 10.0
    ensures SampleSquaredDeviations(Samples(LatencyKeys(), h), 1.0) == 12.0
    ensures SquaredDeviations(LatencyKeys(), h, 1.0) == 12.0
    ensures StatsAsWritten(LatencyKeys(), h, []).value.variance == 2.5
    ensures Stats(LatencyKeys(), h, []).value.variance == 3.0
  {
    var d := LatencyKeys();
    assert h[..1][..0] == [] && h[..1] == h[..|h| - 1];
    assert d.value(0) == 0.0 && d.value(4) == 4.0;
    assert WeightedSum(d, h[..1]) == 0.0;
    assert TotalCount(h) == 4 && WeightedSum(d, h) == 4.0;
    assert SquaredDeviationsAsWritten(d, h[..1], 1.0) == 1.0;
    assert SquaredDeviations(d, h[..1], 1.0) == 3.0;
    SquaredDeviationsAreSampleDeviations(d, h, 1.0);
    assert Included(d, h) == h by {
      assert Included(d, h[..1]) == h[..1];
    }
  }
}
