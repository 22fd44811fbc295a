/** Per-station statistics (`struct Stats`), with every reading counted in
    tenths. `f32::MAX` and `f32::MIN` seed the empty statistics. */
module Statistics {

  /** `f32::MAX`, exactly: (2 - 2^-23) * 2^127. */
  const F32_MAX: int := 340282346638528859811704183484516925440
  /** `f32::MAX` in tenths; `f32::MIN` is its negation. */
  const F32_MAX_TENTHS: int := F32_MAX * 10

  function Min(a: int, b: int): int { if a <= b then a else b }

  function Max(a: int, b: int): int { if a <= b then b else a }

  /** `count` is a `u32` in the source; see README for the overflow left out. */
  datatype Stats = Stats(min: int, max: int, sum: int, count: nat) {

    /** `merge`: min of mins, max of maxes, sums and counts added. */
    function Merge(other: Stats): (r: Stats)
      ensures r.min <= min && r.min <= other.min && (r.min == min || r.min == other.min)
      ensures r.max >= max && r.max >= other.max && (r.max == max || r.max == other.max)
      ensures r.sum == sum + other.sum && r.count == count + other.count
    {
      Stats(Min(min, other.min), Max(max, other.max), sum + other.sum, count + other.count)
    }

    /** `update(value)`, which merges in the singleton of `value`: one more
        reading, which the least and greatest now bound. */
    function Update(value: int): (r: Stats)
      ensures r.count == count + 1 && r.sum == sum + value
      ensures r.min <= value <= r.max
      ensures r.min == Min(min, value) && r.max == Max(max, value)
    {
      Merge(Singleton(value))
    }

    /** `avg`, in tenths, as an exact ratio; the source divides by zero when `count == 0`. */
    function Avg(): (r: real)
      requires count > 0
      ensures r * count as real == sum as real
    {
      sum as real / count as real
    }
  }

  /** `Stats::default()`: the statistics of no readings at all. */
  function Default(): (r: Stats)
    ensures r == Summary([])
  {
    Stats(F32_MAX_TENTHS, -F32_MAX_TENTHS, 0, 0)
  }

  /** `Stats::singleton(value)`: the statistics of the one reading `value`. */
  function Singleton(value: int): (r: Stats)
    ensures -F32_MAX_TENTHS <= value <= F32_MAX_TENTHS ==> r == Summary([value])
  {
    assert [value][1..] == [];
    assert Least([value]) == Min(value, Least([]));
    assert Greatest([value]) == Max(value, Greatest([]));
    assert Total([value]) == value + Total([]);
    Stats(value, value, value, 1)
  }

  predicate InF32Range(s: Stats) {
    s.min <= F32_MAX_TENTHS && -F32_MAX_TENTHS <= s.max
  }

  // ----- A reference definition: the statistics of a list of readings -----

  /** The least reading, or `f32::MAX` when there is none. */
  function Least(vs: seq<int>): (r: int)
    ensures r <= F32_MAX_TENTHS
    ensures forall i :: 0 <= i < |vs| ==> r <= vs[i]
    ensures |vs| > 0 && (forall i :: 0 <= i < |vs| ==> vs[i] <= F32_MAX_TENTHS) ==> r in vs
  {
    if |vs| == 0 then F32_MAX_TENTHS else Min(vs[0], Least(vs[1..]))
  }

  /** The greatest reading, or `f32::MIN` when there is none. */
  function Greatest(vs: seq<int>): (r: int)
    ensures -F32_MAX_TENTHS <= r
    ensures forall i :: 0 <= i < |vs| ==> vs[i] <= r
    ensures |vs| > 0 && (forall i :: 0 <= i < |vs| ==> -F32_MAX_TENTHS <= vs[i]) ==> r in vs
  {
    if |vs| == 0 then -F32_MAX_TENTHS else Max(vs[0], Greatest(vs[1..]))
  }

  function Total(vs: seq<int>): int {
    if |vs| == 0 then 0 else vs[0] + Total(vs[1..])
  }

  /** What the statistics of the readings `vs` should be. */
  function Summary(vs: seq<int>): Stats {
    Stats(Least(vs), Greatest(vs), Total(vs), |vs|)
  }

  // ----- The merge algebra -----

  lemma MergeCommutative(a: Stats, b: Stats)
    ensures a.Merge(b) == b.Merge(a)
  {
  }

  lemma MergeAssociative(a: Stats, b: Stats, c: Stats)
    ensures a.Merge(b).Merge(c) == a.Merge(b.Merge(c))
  {
  }

  /** `Default` is an identity for every statistics inside the `f32` range. */
  lemma DefaultIsIdentity(s: Stats)
    requires InF32Range(s)
    ensures Default().Merge(s) == s && s.Merge(Default()) == s
  {
  }

  /** Merging two summaries summarises the concatenated readings. */
  lemma {:induction false} MergeSummaries(a: seq<int>, b: seq<int>)
    ensures Summary(a).Merge(Summary(b)) == Summary(a + b)
  {
    if |a| == 0 {
      assert a + b == b;
    } else {
      assert (a + b)[1..] == a[1..] + b;
      MergeSummaries(a[1..], b);
    }
  }

  /** `update(v)` records one more reading `v`. */
  lemma UpdateSummary(vs: seq<int>, v: int)
    requires -F32_MAX_TENTHS <= v <= F32_MAX_TENTHS
    ensures Summary(vs).Update(v) == Summary(vs + [v])
  {
    assert Singleton(v) == Summary([v]);
    MergeSummaries(vs, [v]);
  }

  lemma {:induction false} TotalAtLeast(vs: seq<int>)
    ensures |vs| * Least(vs) <= Total(vs)
  {
    if |vs| > 0 {
      var rest, lo, k := vs[1..], Least(vs), |vs| - 1;
      TotalAtLeast(rest);
      MulMonotone(k, lo, Least(rest));
      MulSucc(k, lo);
      assert Total(vs) == vs[0] + Total(rest);
    }
  }

  lemma {:induction false} TotalAtMost(vs: seq<int>)
    ensures Total(vs) <= |vs| * Greatest(vs)
  {
    if |vs| > 0 {
      var rest, hi, k := vs[1..], Greatest(vs), |vs| - 1;
      TotalAtMost(rest);
      MulMonotone(k, Greatest(rest), hi);
      MulSucc(k, hi);
      assert Total(vs) == vs[0] + Total(rest);
    }
  }

  lemma MulSucc(k: nat, x: int)
    ensures (k + 1) * x == k * x + x
  {
  }

  lemma MulMonotone(k: nat, x: int, y: int)
    requires x <= y
    ensures k * x <= k * y
  {
    assert k * y - k * x == k * (y - x);
  }

  /** `lo <= total / n` when `n * lo <= total`, over the reals. */
  lemma RatioBounds(lo: real, hi: real, total: real, n: real)
    requires n > 0.0 && n * lo <= total <= n * hi
    ensures lo <= total / n <= hi
  {
    var q := total / n;
    assert n * q == total;
    assert n * (q - lo) == total - n * lo;
    assert n * (hi - q) == n * hi - total;
  }

  lemma RealOfProduct(a: int, b: int)
    ensures (a * b) as real == a as real * b as real
  {
  }

  /** The average of at least one reading lies between its least and greatest. */
  lemma AvgWithinBounds(vs: seq<int>)
    requires |vs| > 0
    ensures Least(vs) as real <= Summary(vs).Avg() <= Greatest(vs) as real
  {
    var lo, hi, total, n := Least(vs), Greatest(vs), Total(vs), |vs|;
    TotalAtLeast(vs);
    TotalAtMost(vs);
    RealOfProduct(n, lo);
    RealOfProduct(n, hi);
    RatioBounds(lo as real, hi as real, total as real, n as real);
  }
}
