/**
 * The key domain a histogram is keyed by. The statistics engine is written
 * once for any key type; what distinguishes the latency histogram (unsigned
 * integer keys) from the throughput histogram (floating-point keys) is
 * gathered in one record:
 *  - `lt`, the strict order the buckets are sorted by (Go's `<`);
 *  - `excluded`, the keys the engine skips as if they were absent
 *    (the non-finite throughput samples; nothing for latencies);
 *  - `zero`, the value the running maximum starts from (Go's `max := 0`);
 *  - `value`, the number a key contributes to the weighted sum.
 */
module Keys {

  datatype KeyDomain<!K(!new)> = KeyDomain(lt: (K, K) -> bool, excluded: K -> bool, zero: K, value: K -> real)
  {
    /** `lt` is a strict total order on the keys that are not excluded,
        and the initial maximum is such a key. */
    ghost predicate Valid() {
      && !excluded(zero)
      && (forall a :: !excluded(a) ==> !lt(a, a))
      && (forall a, b, c :: !excluded(a) && !excluded(b) && !excluded(c) && lt(a, b) && lt(b, c) ==> lt(a, c))
      && (forall a, b :: !excluded(a) && !excluded(b) && a != b ==> lt(a, b) || lt(b, a))
    }

    /** The non-strict order that goes with `lt`. */
    ghost predicate Le(a: K, b: K) {
      a == b || lt(a, b)
    }
  }
}
