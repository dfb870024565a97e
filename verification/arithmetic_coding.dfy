/** arithmetic_coding.py: `freq_dist_to_interval_dict`, which lays the
    symbols of a frequency table side by side on the number line, each over
    an interval [start, end) as wide as its weight. A Python dict keeps its
    insertion order; here it is a sequence of (key, value) pairs in that
    order. Weights are exact reals: numpy's float `cumsum` is read without
    rounding. */
module ArithmeticCoding {

  /** The sum of a sequence of weights, added from the left as `cumsum`
      does. */
  function Sum(w: seq<real>): real
  {
    if w == [] then 0.0 else Sum(w[..|w| - 1]) + w[|w| - 1]
  }

  /** `vals`: the table's values, in key order. */
  function Weights<K>(dist: seq<(K, real)>): (w: seq<real>)
    ensures |w| == |dist|
    ensures forall k :: 0 <= k < |w| ==> w[k] == dist[k].1
  {
    seq(|dist|, k requires 0 <= k < |dist| => dist[k].1)
  }

  /** The keys of a table (or of the interval dict), in order. */
  function Keys<K, V>(d: seq<(K, V)>): (ks: seq<K>)
    ensures |ks| == |d|
    ensures forall k :: 0 <= k < |ks| ==> ks[k] == d[k].0
  {
    seq(|d|, k requires 0 <= k < |d| => d[k].0)
  }

  /** `ends[k]`, the running total `cumsum` gives after k + 1 weights. */
  lemma {:induction false} SumStep(w: seq<real>, k: nat)
    requires k < |w|
    ensures Sum(w[..k + 1]) == Sum(w[..k]) + w[k]
  {
    assert w[..k + 1][..k] == w[..k];
  }

  /** `(starts[k], ends[k])`: `ends[k] - vals[k]` is the total of the weights
      before k. */
  function Interval(vals: seq<real>, k: nat): (iv: (real, real))
    requires k < |vals|
    ensures iv == (Sum(vals[..k]), Sum(vals[..k + 1]))
  {
    SumStep(vals, k);
    (Sum(vals[..k + 1]) - vals[k], Sum(vals[..k + 1]))
  }

  /** `freq_dist_to_interval_dict`: key k gets (ends[k] - vals[k], ends[k])
      with ends the running totals. The keys come out in the table's order,
      each interval is as wide as its key's weight, the first starts at 0,
      each later one starts where the one before it ends, and the last ends
      at the total weight. */
  function FreqDistToIntervalDict<K>(dist: seq<(K, real)>): (r: seq<(K, (real, real))>)
    ensures Keys(r) == Keys(dist)
    ensures forall k :: 0 <= k < |r| ==> r[k].1.1 - r[k].1.0 == dist[k].1
    ensures |r| > 0 ==> r[0].1.0 == 0.0
    ensures forall k :: 0 < k < |r| ==> r[k].1.0 == r[k - 1].1.1
    ensures |r| > 0 ==> r[|r| - 1].1.1 == Sum(Weights(dist))
    ensures forall k :: 0 <= k < |r| ==> r[k].1 == (Sum(Weights(dist)[..k]), Sum(Weights(dist)[..k + 1]))
  {
    var vals := Weights(dist);
    assert |vals| > 0 ==> vals[..|vals|] == vals;
    seq(|dist|, k requires 0 <= k < |dist| => (dist[k].0, Interval(vals, k)))
  }

  predicate NonNegative(w: seq<real>)
  {
    forall k :: 0 <= k < |w| ==> w[k] >= 0.0
  }

  /** With non-negative weights, running totals never decrease. */
  lemma {:induction false} SumMonotone(w: seq<real>, m: nat, n: nat)
    requires NonNegative(w) && m <= n <= |w|
    ensures Sum(w[..m]) <= Sum(w[..n])
    decreases n - m
  {
    if m < n {
      SumStep(w, m);
      SumMonotone(w, m + 1, n);
    }
  }

  /** With non-negative weights the intervals do not overlap: an interval
      ends no later than any interval after it starts, so starts and ends
      both rise in key order. */
  lemma {:induction false} IntervalsDoNotOverlap<K>(dist: seq<(K, real)>, k: nat, l: nat)
    requires NonNegative(Weights(dist)) && k < l < |dist|
    ensures var r := FreqDistToIntervalDict(dist);
            r[k].1.0 <= r[k].1.1 <= r[l].1.0 <= r[l].1.1
  {
    SumMonotone(Weights(dist), k + 1, l);
  }

  /** The first of the running totals beyond x, from position m on. */
  lemma {:induction false} LocateFrom(w: seq<real>, x: real, m: nat) returns (k: nat)
    requires m < |w| && Sum(w[..m]) <= x < Sum(w)
    ensures m <= k < |w| && Sum(w[..k]) <= x < Sum(w[..k + 1])
    decreases |w| - m
  {
    if x < Sum(w[..m + 1]) {
      k := m;
    } else {
      assert w[..|w|] == w;
      k := LocateFrom(w, x, m + 1);
    }
  }

  /** The intervals cover [0, total): every point in it lies in the
      interval of some key. */
  lemma {:induction false} IntervalsCover<K>(dist: seq<(K, real)>, x: real) returns (k: nat)
    requires 0.0 <= x < Sum(Weights(dist))
    ensures var r := FreqDistToIntervalDict(dist);
            k < |r| && r[k].1.0 <= x < r[k].1.1
  {
    var w := Weights(dist);
    assert w[..0] == [];
    k := LocateFrom(w, x, 0);
  }
}
