/**
 * Sorting the gathered buckets ascending by key (Go's sort.Slice with
 * `pairs[i].k < pairs[j].k`). `Sort` is the reference definition, an
 * insertion sort on sequences; `SortByKey` is the in-place sort of the
 * bucket array. Because the keys are distinct, a strictly sorted
 * permutation is unique (`SortedUnique`), so the array ends up holding
 * exactly `Sort` of what it held, whatever algorithm reorders it.
 */
module Sorting {
  import opened Keys
  import opened Histogram

  ghost predicate StrictlySorted<K(!new)>(d: KeyDomain<K>, s: seq<Bucket<K>>) {
    forall i, j :: 0 <= i < j < |s| ==> d.lt(s[i].key, s[j].key)
  }

  /** Insert `x` before the first bucket whose key is greater than its own. */
  function Insert<K(!new)>(d: KeyDomain<K>, x: Bucket<K>, t: seq<Bucket<K>>): (r: seq<Bucket<K>>)
    ensures multiset(r) == multiset(t) + multiset{x}
  {
    if t == [] then [x]
    else if d.lt(x.key, t[0].key) then [x] + t
    else
      assert t == [t[0]] + t[1..];
      [t[0]] + Insert(d, x, t[1..])
  }

  function Sort<K(!new)>(d: KeyDomain<K>, s: seq<Bucket<K>>): (r: seq<Bucket<K>>)
    ensures multiset(r) == multiset(s)
  {
    if s == [] then []
    else
      assert s == [s[0]] + s[1..];
      Insert(d, s[0], Sort(d, s[1..]))
  }

  lemma {:induction false} InsertTotalCount<K(!new)>(d: KeyDomain<K>, x: Bucket<K>, t: seq<Bucket<K>>)
    ensures TotalCount(Insert(d, x, t)) == TotalCount(t) + x.count
  {
    if t == [] {
      assert [x][..0] == [];
    } else if d.lt(x.key, t[0].key) {
      TotalCountAppend([x], t);
      assert [x][..0] == [];
    } else {
      InsertTotalCount(d, x, t[1..]);
      TotalCountAppend([t[0]], Insert(d, x, t[1..]));
      TotalCountAppend([t[0]], t[1..]);
      assert [t[0]] + t[1..] == t;
      assert [t[0]][..0] == [];
    }
  }

  /** Sorting keeps the total count. */
  lemma {:induction false} SortTotalCount<K(!new)>(d: KeyDomain<K>, s: seq<Bucket<K>>)
    ensures TotalCount(Sort(d, s)) == TotalCount(s)
  {
    if s != [] {
      SortTotalCount(d, s[1..]);
      InsertTotalCount(d, s[0], Sort(d, s[1..]));
      TotalCountAppend([s[0]], s[1..]);
      assert [s[0]] + s[1..] == s;
      assert [s[0]][..0] == [];
    }
  }

  lemma {:induction false} InsertSorted<K(!new)>(d: KeyDomain<K>, x: Bucket<K>, t: seq<Bucket<K>>)
    requires d.Valid() && !d.excluded(x.key) && AllIncluded(d, t) && StrictlySorted(d, t)
    requires forall b :: b in t ==> b.key != x.key
    ensures StrictlySorted(d, Insert(d, x, t))
  {
    if t != [] && !d.lt(x.key, t[0].key) {
      var t' := t[1..];
      InsertSorted(d, x, t');
      var r' := Insert(d, x, t');
      assert d.lt(t[0].key, x.key);
      forall b | b in r' ensures d.lt(t[0].key, b.key) {
        assert b in multiset(r');
        assert b == x || b in t';
      }
    }
  }

  /** The reference sort yields a strictly sorted sequence of the same buckets. */
  lemma {:induction false} SortSorted<K(!new)>(d: KeyDomain<K>, s: seq<Bucket<K>>)
    requires d.Valid() && AllIncluded(d, s) && DistinctKeys(s)
    ensures StrictlySorted(d, Sort(d, s))
    ensures AllIncluded(d, Sort(d, s))
  {
    if s != [] {
      var s' := s[1..];
      SortSorted(d, s');
      var t := Sort(d, s');
      forall b | b in t ensures b.key != s[0].key {
        assert b in multiset(t);
        assert b in s';
      }
      InsertSorted(d, s[0], t);
      forall i | 0 <= i < |Sort(d, s)| ensures !d.excluded(Sort(d, s)[i].key) {
        assert Sort(d, s)[i] in multiset(Sort(d, s));
      }
    }
  }

  /** Two strictly sorted sequences holding the same buckets are equal. */
  lemma {:induction false} SortedUnique<K(!new)>(d: KeyDomain<K>, a: seq<Bucket<K>>, b: seq<Bucket<K>>)
    requires d.Valid() && AllIncluded(d, a)
    requires StrictlySorted(d, a) && StrictlySorted(d, b) && multiset(a) == multiset(b)
    ensures a == b
  {
    if a == [] {
      assert |b| == |multiset(b)|;
    } else {
      assert |b| == |multiset(b)| == |multiset(a)| == |a|;
      assert a[0] in multiset(b);
      var j :| 0 <= j < |b| && b[j] == a[0];
      assert b[0] in multiset(a);
      var i :| 0 <= i < |a| && a[i] == b[0];
      if j > 0 {
        // b[0] sorts before b[j] == a[0], yet b[0] is some a[i] that cannot sort before a[0]
        assert false;
      }
      assert a[0] == b[0];
      MultisetTail(a);
      MultisetTail(b);
      forall k | 0 <= k < |a[1..]| ensures !d.excluded(a[1..][k].key) {
        assert a[1..][k] == a[k + 1];
      }
      SortedUnique(d, a[1..], b[1..]);
    }
  }

  lemma MultisetTail<T>(s: seq<T>)
    requires s != []
    ensures multiset(s[1..]) == multiset(s) - multiset{s[0]}
  {
    assert s == [s[0]] + s[1..];
  }

  /** Invariant of the inner loop of the insertion sort: the prefix up to `i`
      is sorted except for the bucket at `j`, which is below every bucket
      after it. */
  ghost predicate InsertionInvariant<K(!new)>(d: KeyDomain<K>, s: seq<Bucket<K>>, i: nat, j: nat) {
    && j <= i < |s|
    && (forall x, y :: 0 <= x < y <= i && x != j && y != j ==> d.lt(s[x].key, s[y].key))
    && (forall y :: j < y <= i ==> d.lt(s[j].key, s[y].key))
  }

  lemma SwapStep<K(!new)>(d: KeyDomain<K>, s: seq<Bucket<K>>, i: nat, j: nat)
    requires d.Valid() && AllIncluded(d, s) && DistinctKeys(s)
    requires InsertionInvariant(d, s, i, j) && 0 < j && d.lt(s[j].key, s[j - 1].key)
    ensures var t := s[j - 1 := s[j]][j := s[j - 1]];
      AllIncluded(d, t) && DistinctKeys(t) && multiset(t) == multiset(s) && InsertionInvariant(d, t, i, j - 1)
  {
    var t := s[j - 1 := s[j]][j := s[j - 1]];
    forall y | j - 1 < y <= i ensures d.lt(t[j - 1].key, t[y].key) {
      if y > j {
        assert d.lt(s[j].key, s[y].key);
      }
    }
  }

  lemma InsertionDone<K(!new)>(d: KeyDomain<K>, s: seq<Bucket<K>>, i: nat, j: nat)
    requires d.Valid() && AllIncluded(d, s) && DistinctKeys(s)
    requires InsertionInvariant(d, s, i, j) && (j == 0 || !d.lt(s[j].key, s[j - 1].key))
    ensures StrictlySorted(d, s[..i + 1])
  {
    if j > 0 {
      assert d.lt(s[j - 1].key, s[j].key);
      forall x | 0 <= x < j - 1 ensures d.lt(s[x].key, s[j].key) {
        assert d.lt(s[x].key, s[j - 1].key);
      }
    }
  }

  /** Insertion sort of the bucket array, in place. */
  method SortByKey<K(!new)>(d: KeyDomain<K>, a: array<Bucket<K>>)
    requires d.Valid() && AllIncluded(d, a[..]) && DistinctKeys(a[..])
    modifies a
    ensures StrictlySorted(d, a[..])
    ensures multiset(a[..]) == old(multiset(a[..]))
  {
    if a.Length == 0 {
      return;
    }
    var i := 1;
    while i < a.Length
      invariant 1 <= i <= a.Length
      invariant AllIncluded(d, a[..]) && DistinctKeys(a[..])
      invariant StrictlySorted(d, a[..i])
      invariant multiset(a[..]) == old(multiset(a[..]))
    {
      var j := i;
      assert InsertionInvariant(d, a[..], i, j);
      while j > 0 && d.lt(a[j].key, a[j - 1].key)
        invariant 0 <= j <= i
        invariant AllIncluded(d, a[..]) && DistinctKeys(a[..])
        invariant InsertionInvariant(d, a[..], i, j)
        invariant multiset(a[..]) == old(multiset(a[..]))
      {
        SwapStep(d, a[..], i, j);
        a[j - 1], a[j] := a[j], a[j - 1];
        j := j - 1;
      }
      InsertionDone(d, a[..], i, j);
      assert a[..][..i + 1] == a[..i + 1];
      i := i + 1;
    }
    assert a[..a.Length] == a[..];
  }
}
