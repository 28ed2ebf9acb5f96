/** `Stats`: the per-station record of minimum, maximum, sum (all in tenths) and count,
    and the rule that combines two records for the same station. */
module Statistics {
  import opened Bytes

  const INT64_MIN: int := -0x8000_0000_0000_0000
  const INT64_MAX: int := 0x7fff_ffff_ffff_ffff

  datatype Stats = Stats(min: int, max: int, sum: int, count: nat)

  /** `Stats() = default` in C++: the record of no readings. */
  function Empty(): Stats { Stats(INT64_MAX, INT64_MIN, 0, 0) }

  /** `Stats(temperature)` / `Stats::new(temperature)`: the record of a single reading. */
  function Single(t: int): Stats { Stats(t, t, t, 1) }

  /** The combination of two records for one station: min of mins, max of maxes, and the
      totals of sums and counts. */
  function Combine(a: Stats, b: Stats): (c: Stats)
    ensures c.count == a.count + b.count && c.sum == a.sum + b.sum
    ensures c.min <= a.min && c.min <= b.min && (c.min == a.min || c.min == b.min)
    ensures c.max >= a.max && c.max >= b.max && (c.max == a.max || c.max == b.max)
  {
    Stats(Min(a.min, b.min), Max(a.max, b.max), a.sum + b.sum, a.count + b.count)
  }

  /** The record of at least one reading: the minimum and maximum bracket the mean
      `sum / count`. */
  predicate Valid(s: Stats) {
    s.count >= 1 && s.min <= s.max && s.min * s.count <= s.sum <= s.max * s.count
  }

  lemma SingleValid(t: int)
    ensures Valid(Single(t))
  {
  }

  lemma MulMonotone(x: int, y: int, c: nat)
    requires x <= y
    ensures x * c <= y * c
  {
  }

  /** Combining keeps the mean between the minimum and the maximum. */
  lemma CombineValid(a: Stats, b: Stats)
    requires Valid(a) && Valid(b)
    ensures Valid(Combine(a, b))
  {
    var c := Combine(a, b);
    MulMonotone(c.min, a.min, a.count);
    MulMonotone(c.min, b.min, b.count);
    MulMonotone(a.max, c.max, a.count);
    MulMonotone(b.max, c.max, b.count);
    assert c.min * c.count == c.min * a.count + c.min * b.count;
    assert c.max * c.count == c.max * a.count + c.max * b.count;
  }

  lemma CombineCommutative(a: Stats, b: Stats)
    ensures Combine(a, b) == Combine(b, a)
  {
  }

  lemma CombineAssociative(a: Stats, b: Stats, c: Stats)
    ensures Combine(Combine(a, b), c) == Combine(a, Combine(b, c))
  {
  }

  /** The default record is an identity of `Combine` for every record whose bounds fit in
      64 bits. */
  lemma EmptyIsIdentity(s: Stats)
    requires s.min <= INT64_MAX && s.max >= INT64_MIN
    ensures Combine(Empty(), s) == s && Combine(s, Empty()) == s
  {
  }
}
