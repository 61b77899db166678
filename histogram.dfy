/**
 * A read-only weighted histogram, as the statistics engine sees it: the
 * buckets its VisitAll traversal reports, one (key, count) pair per
 * populated key, in the order of the traversal. The quantities the engine
 * accumulates in its gathering pass are defined here as functions of that
 * sequence; each is defined on the last bucket, so that it follows the
 * traversal one bucket at a time.
 */
module Histogram {
  import opened Keys

  datatype Bucket<K> = Bucket(key: K, count: nat)

  /** A histogram reports every key at most once. */
  ghost predicate DistinctKeys<K(!new)>(h: seq<Bucket<K>>) {
    forall i, j :: 0 <= i < j < |h| ==> h[i].key != h[j].key
  }

  /** No bucket carries a key the domain excludes. */
  ghost predicate AllIncluded<K(!new)>(d: KeyDomain<K>, s: seq<Bucket<K>>) {
    forall i :: 0 <= i < |s| ==> !d.excluded(s[i].key)
  }

  /** The buckets the engine keeps, in traversal order: excluded keys are skipped. */
  function Included<K(!new)>(d: KeyDomain<K>, h: seq<Bucket<K>>): seq<Bucket<K>> {
    if h == [] then []
    else
      var last := h[|h| - 1];
      Included(d, h[..|h| - 1]) + if d.excluded(last.key) then [] else [last]
  }

  /** The total weighted count: the sum of all bucket counts. */
  function TotalCount<K(!new)>(s: seq<Bucket<K>>): nat {
    if s == [] then 0 else TotalCount(s[..|s| - 1]) + s[|s| - 1].count
  }

  /** The cumulative count of the buckets up to and including index `i`. */
  function CountThrough<K(!new)>(s: seq<Bucket<K>>, i: nat): nat
    requires i < |s|
  {
    TotalCount(s[..i + 1])
  }

  /** The weighted sum: each key's value times its count. */
  function WeightedSum<K(!new)>(d: KeyDomain<K>, s: seq<Bucket<K>>): real {
    if s == [] then 0.0
    else WeightedSum(d, s[..|s| - 1]) + d.value(s[|s| - 1].key) * s[|s| - 1].count as real
  }

  /** The count-weighted sum of squared deviations from `mean`. */
  function SquaredDeviations<K(!new)>(d: KeyDomain<K>, s: seq<Bucket<K>>, mean: real): real {
    if s == [] then 0.0
    else
      var dev := d.value(s[|s| - 1].key) - mean;
      SquaredDeviations(d, s[..|s| - 1], mean) + s[|s| - 1].count as real * (dev * dev)
  }

  /** The sum of squared deviations as the source's second pass computes it:
      once per bucket, whatever the bucket's count. */
  function SquaredDeviationsAsWritten<K(!new)>(d: KeyDomain<K>, s: seq<Bucket<K>>, mean: real): real {
    if s == [] then 0.0
    else
      var dev := d.value(s[|s| - 1].key) - mean;
      SquaredDeviationsAsWritten(d, s[..|s| - 1], mean) + dev * dev
  }

  /** With one sample per bucket, the per-bucket and the count-weighted sums agree. */
  lemma {:induction false} UnitCountDeviations<K(!new)>(d: KeyDomain<K>, s: seq<Bucket<K>>, mean: real)
    requires forall b :: b in s ==> b.count == 1
    ensures SquaredDeviationsAsWritten(d, s, mean) == SquaredDeviations(d, s, mean)
  {
    if s != [] {
      assert forall b :: b in s[..|s| - 1] ==> b in s;
      assert s[|s| - 1] in s;
      UnitCountDeviations(d, s[..|s| - 1], mean);
    }
  }

  /** The raw samples a histogram summarises: each key's value, repeated `count` times. */
  function Samples<K(!new)>(d: KeyDomain<K>, s: seq<Bucket<K>>): (xs: seq<real>)
    ensures |xs| == TotalCount(s)
  {
    if s == [] then [] else Samples(d, s[..|s| - 1]) + Repeat(d.value(s[|s| - 1].key), s[|s| - 1].count)
  }

  function Repeat(x: real, c: nat): (xs: seq<real>)
    ensures |xs| == c
  {
    if c == 0 then [] else Repeat(x, c - 1) + [x]
  }

  function SampleSum(xs: seq<real>): real {
    if xs == [] then 0.0 else SampleSum(xs[..|xs| - 1]) + xs[|xs| - 1]
  }

  function SampleSquaredDeviations(xs: seq<real>, mean: real): real {
    if xs == [] then 0.0
    else
      var dev := xs[|xs| - 1] - mean;
      SampleSquaredDeviations(xs[..|xs| - 1], mean) + dev * dev
  }

  lemma {:induction false} SampleSumAppend(xs: seq<real>, ys: seq<real>)
    ensures SampleSum(xs + ys) == SampleSum(xs) + SampleSum(ys)
  {
    if ys == [] {
      assert xs + ys == xs;
    } else {
      var ys' := ys[..|ys| - 1];
      assert (xs + ys)[..|xs + ys| - 1] == xs + ys';
      SampleSumAppend(xs, ys');
    }
  }

  lemma {:induction false} SampleSquaresAppend(xs: seq<real>, ys: seq<real>, mean: real)
    ensures SampleSquaredDeviations(xs + ys, mean) == SampleSquaredDeviations(xs, mean) + SampleSquaredDeviations(ys, mean)
  {
    if ys == [] {
      assert xs + ys == xs;
    } else {
      var ys' := ys[..|ys| - 1];
      assert (xs + ys)[..|xs + ys| - 1] == xs + ys';
      SampleSquaresAppend(xs, ys', mean);
    }
  }

  lemma {:induction false} RepeatSum(x: real, c: nat)
    ensures SampleSum(Repeat(x, c)) == x * c as real
  {
    if c > 0 {
      RepeatSum(x, c - 1);
      var xs := Repeat(x, c);
      assert xs[..|xs| - 1] == Repeat(x, c - 1);
      assert x * (c - 1) as real + x == x * c as real;
    }
  }

  /** One more copy adds `y` once; kept apart so the product stays out of the induction in `RepeatSquares`. */
  lemma ScaleStep(c: nat, y: real)
    requires c > 0
    ensures (c - 1) as real * y + y == c as real * y
  {
  }

  lemma {:induction false} RepeatSquares(x: real, c: nat, mean: real)
    ensures SampleSquaredDeviations(Repeat(x, c), mean) == c as real * ((x - mean) * (x - mean))
  {
    if c > 0 {
      var y := (x - mean) * (x - mean);
      var xs := Repeat(x, c);
      assert SampleSquaredDeviations(xs, mean) == SampleSquaredDeviations(Repeat(x, c - 1), mean) + y by {
        assert xs[..|xs| - 1] == Repeat(x, c - 1) && xs[|xs| - 1] == x;
      }
      RepeatSquares(x, c - 1, mean);
      ScaleStep(c, y);
    }
  }

  /** The weighted sum of a histogram is the sum of the raw samples it summarises. */
  lemma {:induction false} WeightedSumIsSampleSum<K(!new)>(d: KeyDomain<K>, s: seq<Bucket<K>>)
    ensures WeightedSum(d, s) == SampleSum(Samples(d, s))
  {
    if s != [] {
      var init, last := s[..|s| - 1], s[|s| - 1];
      var x, c := d.value(last.key), last.count;
      var xs, ys := Samples(d, init), Repeat(x, c);
      assert Samples(d, s) == xs + ys;
      assert WeightedSum(d, s) == WeightedSum(d, init) + x * c as real;
      SampleSumAppend(xs, ys);
      RepeatSum(x, c);
      WeightedSumIsSampleSum(d, init);
    }
  }

  /** The count-weighted squared deviations of a histogram are those of the raw samples it summarises. */
  lemma {:induction false} SquaredDeviationsAreSampleDeviations<K(!new)>(d: KeyDomain<K>, s: seq<Bucket<K>>, mean: real)
    ensures SquaredDeviations(d, s, mean) == SampleSquaredDeviations(Samples(d, s), mean)
  {
    if s != [] {
      var init, last := s[..|s| - 1], s[|s| - 1];
      var x, c := d.value(last.key), last.count;
      var xs, ys := Samples(d, init), Repeat(x, c);
      var t := SampleSquaredDeviations(ys, mean);
      assert SquaredDeviations(d, s, mean) == SquaredDeviations(d, init, mean) + t by {
        RepeatSquares(x, c, mean);
      }
      assert SampleSquaredDeviations(Samples(d, s), mean) == SampleSquaredDeviations(xs, mean) + t by {
        assert Samples(d, s) == xs + ys;
        SampleSquaresAppend(xs, ys, mean);
      }
      SquaredDeviationsAreSampleDeviations(d, init, mean);
    }
  }

  /** The running maximum: starts at `zero` and moves to every key greater than it. */
  function MaxKey<K(!new)>(d: KeyDomain<K>, s: seq<Bucket<K>>): K {
    if s == [] then d.zero
    else
      var m := MaxKey(d, s[..|s| - 1]);
      var k := s[|s| - 1].key;
      if d.lt(m, k) then k else m
  }

  /** The kept buckets are exactly the buckets whose keys are not excluded. */
  lemma {:induction false} IncludedMembers<K(!new)>(d: KeyDomain<K>, h: seq<Bucket<K>>)
    ensures forall b :: b in Included(d, h) <==> b in h && !d.excluded(b.key)
    ensures AllIncluded(d, Included(d, h))
  {
    if h != [] {
      var init := h[..|h| - 1];
      IncludedMembers(d, init);
      assert forall b :: b in h <==> b in init || b == h[|h| - 1];
    }
  }

  lemma {:induction false} IncludedDistinct<K(!new)>(d: KeyDomain<K>, h: seq<Bucket<K>>)
    requires DistinctKeys(h)
    ensures DistinctKeys(Included(d, h))
  {
    if h != [] {
      var init, last := h[..|h| - 1], h[|h| - 1];
      IncludedDistinct(d, init);
      IncludedMembers(d, init);
      var r := Included(d, init);
      forall b | b in r ensures b.key != last.key {
        var i :| 0 <= i < |init| && init[i] == b;
        assert h[i] == b;
      }
    }
  }

  /** Filtering twice is filtering once. */
  lemma {:induction false} IncludedIdempotent<K(!new)>(d: KeyDomain<K>, h: seq<Bucket<K>>)
    ensures Included(d, Included(d, h)) == Included(d, h)
  {
    if h != [] {
      var init, last := h[..|h| - 1], h[|h| - 1];
      IncludedIdempotent(d, init);
      var r := Included(d, init);
      if !d.excluded(last.key) {
        var r' := r + [last];
        assert r'[..|r'| - 1] == r;
        assert r'[|r'| - 1] == last;
        assert Included(d, r') == Included(d, r) + [last];
        assert Included(d, h) == r';
      } else {
        assert Included(d, h) == r + [];
        assert r + [] == r;
      }
    }
  }

  lemma {:induction false} TotalCountAppend<K(!new)>(s: seq<Bucket<K>>, t: seq<Bucket<K>>)
    ensures TotalCount(s + t) == TotalCount(s) + TotalCount(t)
  {
    if t != [] {
      var t' := t[..|t| - 1];
      assert (s + t)[..|s + t| - 1] == s + t';
      TotalCountAppend(s, t');
    } else {
      assert s + t == s;
    }
  }

  /** Cumulative counts never decrease along the sequence, and never exceed the total. */
  lemma {:induction false} CountThroughMonotone<K(!new)>(s: seq<Bucket<K>>, i: nat, j: nat)
    requires i <= j < |s|
    ensures CountThrough(s, i) + (if i < j then s[j].count else 0) <= CountThrough(s, j) <= TotalCount(s)
  {
    TotalCountAppend(s[..j + 1], s[j + 1..]);
    assert s[..j + 1] + s[j + 1..] == s;
    if i < j {
      assert s[..j + 1][..j] == s[..j];
      TotalCountAppend(s[..i + 1], s[i + 1..j]);
      assert s[..i + 1] + s[i + 1..j] == s[..j];
    }
  }

  /** The running maximum is at least `zero` and every key, and it is `zero` or one of the keys. */
  lemma {:induction false} MaxKeyBounds<K(!new)>(d: KeyDomain<K>, s: seq<Bucket<K>>)
    requires d.Valid() && AllIncluded(d, s)
    ensures d.Le(d.zero, MaxKey(d, s))
    ensures forall b :: b in s ==> d.Le(b.key, MaxKey(d, s))
    ensures MaxKey(d, s) == d.zero || exists b :: b in s && b.key == MaxKey(d, s)
  {
    if s != [] {
      var init := s[..|s| - 1];
      MaxKeyBounds(d, init);
      var m, k := MaxKey(d, init), s[|s| - 1].key;
      assert !d.excluded(k);
      assert m == d.zero || exists b :: b in init && b.key == m;
      assert !d.excluded(m);
      assert forall b :: b in s ==> b in init || b == s[|s| - 1];
    }
  }
}
