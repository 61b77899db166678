/**
 * Percentile selection over buckets sorted by key. A requested percentile
 * p in [0, 1] has rank floor(p * n + 1/2) against the total count n, and
 * resolves to the key of the first bucket at which the running total of
 * counts reaches that rank. Requests are handled in order: one already
 * resolved is skipped, one outside [0, 1] is dropped.
 */
module Percentiles {
  import opened Wrappers
  import opened Keys
  import opened Histogram
  import opened Sorting

  /** The rank of percentile `p` against `n` samples, rounding half up. */
  function Rank(p: real, n: nat): (r: nat)
    requires 0.0 <= p <= 1.0
    ensures r <= n
    ensures p == 0.0 ==> r == 0
    ensures p == 1.0 ==> r == n
  {
    assert p * n as real <= n as real by {
      assert (1.0 - p) * n as real >= 0.0;
    }
    (p * n as real + 0.5).Floor
  }

  /** The least index at or after `i` whose cumulative count reaches `rank`, if any. */
  function Search<K(!new)>(s: seq<Bucket<K>>, rank: nat, i: nat): (r: Option<nat>)
    requires i <= |s|
    decreases |s| - i
    ensures r.Some? ==> i <= r.value < |s| && CountThrough(s, r.value) >= rank
    ensures r.Some? ==> forall j :: i <= j < r.value ==> CountThrough(s, j) < rank
    ensures r.None? ==> forall j :: i <= j < |s| ==> CountThrough(s, j) < rank
  {
    if i == |s| then None
    else if CountThrough(s, i) >= rank then Some(i)
    else Search(s, rank, i + 1)
  }

  /** The key of the first bucket whose cumulative count reaches `rank`. */
  function Select<K(!new)>(s: seq<Bucket<K>>, rank: nat): Option<K> {
    match Search(s, rank, 0)
    case Some(i) => Some(s[i].key)
    case None => None
  }

  /** The percentile map built from the requests `ps`, in order, over sorted buckets `s` of total count `n`. */
  function Resolve<K(!new)>(s: seq<Bucket<K>>, n: nat, ps: seq<real>): map<real, K> {
    if ps == [] then map[]
    else
      var m := Resolve(s, n, ps[..|ps| - 1]);
      var p := ps[|ps| - 1];
      if p in m then m
      else if p < 0.0 || p > 1.0 then m
      else match Select(s, Rank(p, n))
        case Some(k) => m[p := k]
        case None => m
  }

  /** What one percentile resolves to, on its own. */
  function PercentileOf<K(!new)>(s: seq<Bucket<K>>, n: nat, p: real): Option<K> {
    if 0.0 <= p <= 1.0 then Select(s, Rank(p, n)) else None
  }

  /** Resolve the requests one by one, in order, as the percentile loop does. */
  method ResolveAll<K(!new)>(a: array<Bucket<K>>, n: nat, ps: seq<real>) returns (m: map<real, K>)
    ensures m == Resolve(a[..], n, ps)
  {
    m := map[];
    for i := 0 to |ps|
      invariant m == Resolve(a[..], n, ps[..i])
    {
      var pc := ps[i];
      assert ps[..i + 1][..i] == ps[..i];
      if pc !in m && 0.0 <= pc <= 1.0 {
        var v := FirstReaching(a, Rank(pc, n));
        if v.Some? {
          m := m[pc := v.value];
        }
      }
    }
    assert ps[..|ps|] == ps;
  }

  /** Walk the sorted buckets with a running total and stop at the first one reaching `rank`. */
  method FirstReaching<K(!new)>(a: array<Bucket<K>>, rank: nat) returns (r: Option<K>)
    ensures r == Select(a[..], rank)
  {
    var total := 0;
    var j := 0;
    while j < a.Length
      invariant 0 <= j <= a.Length
      invariant total == TotalCount(a[..j])
      invariant Search(a[..], rank, j) == Search(a[..], rank, 0)
    {
      total := total + a[j].count;
      assert a[..j + 1][..j] == a[..j];
      assert a[..][..j + 1] == a[..j + 1];
      if total >= rank {
        return Some(a[j].key);
      }
      j := j + 1;
    }
    return None;
  }

  /** The fold over the requests equals the map from every requested
      percentile that resolves to what it resolves to on its own: a request
      that is repeated, wherever it is repeated, changes nothing. */
  lemma {:induction false} ResolveClosedForm<K(!new)>(s: seq<Bucket<K>>, n: nat, ps: seq<real>)
    ensures Resolve(s, n, ps) == map p | p in ps && PercentileOf(s, n, p).Some? :: PercentileOf(s, n, p).value
  {
    if ps != [] {
      var init, p := ps[..|ps| - 1], ps[|ps| - 1];
      ResolveClosedForm(s, n, init);
      assert forall q :: q in ps <==> q in init || q == p;
    }
  }

  /** Two request lists holding the same percentiles give the same map. */
  lemma ResolveSameRequests<K(!new)>(s: seq<Bucket<K>>, n: nat, ps: seq<real>, qs: seq<real>)
    requires forall p :: p in ps <==> p in qs
    ensures Resolve(s, n, ps) == Resolve(s, n, qs)
  {
    ResolveClosedForm(s, n, ps);
    ResolveClosedForm(s, n, qs);
  }

  /** Rank n, the total count, selects the last bucket with a nonzero count. */
  lemma FullRankSelectsLastNonzero<K(!new)>(s: seq<Bucket<K>>)
    requires TotalCount(s) >= 1
    ensures Search(s, TotalCount(s), 0).Some?
    ensures var i := Search(s, TotalCount(s), 0).value;
      s[i].count > 0 && forall k :: i < k < |s| ==> s[k].count == 0
  {
    var n := TotalCount(s);
    assert s != [] && s[..|s|] == s;
    assert CountThrough(s, |s| - 1) == n;
    var i := Search(s, n, 0).value;
    if i > 0 {
      assert CountThrough(s, i - 1) < n;
      assert s[..i + 1][..i] == s[..i];
    } else {
      assert s[..1][..0] == [];
    }
    forall k | i < k < |s| ensures s[k].count == 0 {
      CountThroughMonotone(s, i, k);
      CountThroughMonotone(s, k, |s| - 1);
    }
  }

  /** With at least one sample, percentile 0 resolves to the key of the first bucket. */
  lemma PercentileZeroIsFirst<K(!new)>(s: seq<Bucket<K>>)
    requires TotalCount(s) >= 1
    ensures s != [] && PercentileOf(s, TotalCount(s), 0.0) == Some(s[0].key)
  {
    assert s != [];
  }

  /** Over strictly sorted buckets, percentile 1 resolves to the largest key with a nonzero count. */
  lemma PercentileOneIsLastNonzero<K(!new)>(d: KeyDomain<K>, s: seq<Bucket<K>>)
    requires StrictlySorted(d, s) && TotalCount(s) >= 1
    ensures PercentileOf(s, TotalCount(s), 1.0).Some?
    ensures var v := PercentileOf(s, TotalCount(s), 1.0).value;
      && (exists k :: 0 <= k < |s| && s[k].key == v && s[k].count > 0)
      && forall k :: 0 <= k < |s| && s[k].count > 0 ==> d.Le(s[k].key, v)
  {
    FullRankSelectsLastNonzero(s);
    var i := Search(s, TotalCount(s), 0).value;
    forall k | 0 <= k < |s| && s[k].count > 0 ensures d.Le(s[k].key, s[i].key) {
      assert k <= i;
    }
  }

  /** The index a resolved rank selects never decreases as the rank grows. */
  lemma SearchMonotone<K(!new)>(s: seq<Bucket<K>>, r1: nat, r2: nat)
    requires r1 <= r2 && Search(s, r2, 0).Some?
    ensures Search(s, r1, 0).Some? && Search(s, r1, 0).value <= Search(s, r2, 0).value
  {
  }

  lemma RankMonotone(p1: real, p2: real, n: nat)
    requires 0.0 <= p1 <= p2 <= 1.0
    ensures Rank(p1, n) <= Rank(p2, n)
  {
    assert p1 * n as real <= p2 * n as real by {
      assert (p2 - p1) * n as real >= 0.0;
    }
  }

  /** Percentiles are monotone: a larger percentile never resolves to a smaller key. */
  lemma PercentileOfMonotone<K(!new)>(d: KeyDomain<K>, s: seq<Bucket<K>>, n: nat, p1: real, p2: real)
    requires StrictlySorted(d, s)
    requires p1 <= p2 && PercentileOf(s, n, p1).Some? && PercentileOf(s, n, p2).Some?
    ensures d.Le(PercentileOf(s, n, p1).value, PercentileOf(s, n, p2).value)
  {
    RankMonotone(p1, p2, n);
    SearchMonotone(s, Rank(p1, n), Rank(p2, n));
  }

  /** With a total of `n` >= 1 samples, every percentile in [0, 1] resolves. */
  lemma InRangeResolves<K(!new)>(s: seq<Bucket<K>>, p: real)
    requires TotalCount(s) >= 1 && 0.0 <= p <= 1.0
    ensures PercentileOf(s, TotalCount(s), p).Some?
  {
    var n := TotalCount(s);
    assert s != [];
    assert s[..|s|] == s;
    assert CountThrough(s, |s| - 1) == n;
  }
}
