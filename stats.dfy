/** The per-feature arithmetic of the drift filter: the percentile trim, the
    per-class mean of the kept rows, the percentage difference between a
    train and a test statistic, and the strict threshold test. Floating point
    is idealised as `real`, except that the two IEEE outcomes the formula can
    reach (an infinite quotient and NaN) are kept. */
module Stats {

  /** A binary class label. */
  type Label = l: int | 0 <= l <= 1

  /** Row k survives the trim `col.gt(lo) & col.lt(hi)`. */
  predicate Kept(values: seq<real>, lo: real, hi: real, k: nat)
    requires k < |values|
  {
    lo < values[k] < hi
  }

  /** Some row of class `cls` survives the trim. */
  predicate Survives(values: seq<real>, labels: seq<Label>, lo: real, hi: real, cls: Label)
    requires |labels| == |values|
  {
    exists k :: 0 <= k < |values| && Kept(values, lo, hi, k) && labels[k] == cls
  }

  /** How many of the first n rows are of class `cls` and survive the trim. */
  function Count(values: seq<real>, labels: seq<Label>, lo: real, hi: real, cls: Label, n: nat): nat
    requires |labels| == |values| && n <= |values|
  {
    if n == 0 then 0
    else Count(values, labels, lo, hi, cls, n - 1) + (if Kept(values, lo, hi, n - 1) && labels[n - 1] == cls then 1 else 0)
  }

  /** The sum of the values of those rows. */
  function Total(values: seq<real>, labels: seq<Label>, lo: real, hi: real, cls: Label, n: nat): real
    requires |labels| == |values| && n <= |values|
  {
    if n == 0 then 0.0
    else Total(values, labels, lo, hi, cls, n - 1) + (if Kept(values, lo, hi, n - 1) && labels[n - 1] == cls then values[n - 1] else 0.0)
  }

  /** The count is positive exactly when such a row exists among the first n. */
  lemma {:induction false} CountPositive(values: seq<real>, labels: seq<Label>, lo: real, hi: real, cls: Label, n: nat)
    requires |labels| == |values| && n <= |values|
    ensures Count(values, labels, lo, hi, cls, n) > 0 <==> exists k :: 0 <= k < n && Kept(values, lo, hi, k) && labels[k] == cls
  {
    if n > 0 {
      CountPositive(values, labels, lo, hi, cls, n - 1);
    }
  }

  lemma {:induction false} TotalZero(values: seq<real>, labels: seq<Label>, lo: real, hi: real, cls: Label, n: nat)
    requires |labels| == |values| && n <= |values|
    ensures Count(values, labels, lo, hi, cls, n) == 0 ==> Total(values, labels, lo, hi, cls, n) == 0.0
  {
    if n > 0 {
      TotalZero(values, labels, lo, hi, cls, n - 1);
    }
  }

  /** Each counted value lies strictly above `lo`, so their sum lies
      strictly above count * lo. */
  lemma {:induction false} TotalAbove(values: seq<real>, labels: seq<Label>, lo: real, hi: real, cls: Label, n: nat)
    requires |labels| == |values| && n <= |values|
    ensures var c := Count(values, labels, lo, hi, cls, n) as real;
      c > 0.0 ==> c * lo < Total(values, labels, lo, hi, cls, n)
  {
    if n > 0 {
      TotalAbove(values, labels, lo, hi, cls, n - 1);
      TotalZero(values, labels, lo, hi, cls, n - 1);
      if Kept(values, lo, hi, n - 1) && labels[n - 1] == cls {
        var c', t' := Count(values, labels, lo, hi, cls, n - 1) as real, Total(values, labels, lo, hi, cls, n - 1);
        AddAbove(c', t', values[n - 1], lo);
      }
    }
  }

  /** Likewise below: the sum lies strictly below count * hi. */
  lemma {:induction false} TotalBelow(values: seq<real>, labels: seq<Label>, lo: real, hi: real, cls: Label, n: nat)
    requires |labels| == |values| && n <= |values|
    ensures var c := Count(values, labels, lo, hi, cls, n) as real;
      c > 0.0 ==> Total(values, labels, lo, hi, cls, n) < c * hi
  {
    if n > 0 {
      TotalBelow(values, labels, lo, hi, cls, n - 1);
      TotalZero(values, labels, lo, hi, cls, n - 1);
      if Kept(values, lo, hi, n - 1) && labels[n - 1] == cls {
        var c', t' := Count(values, labels, lo, hi, cls, n - 1) as real, Total(values, labels, lo, hi, cls, n - 1);
        AddBelow(c', t', values[n - 1], hi);
      }
    }
  }

  /** Adding one more value above `lo` to a sum of c values above `lo`. */
  lemma AddAbove(c: real, t: real, v: real, lo: real)
    requires (c == 0.0 ==> t == 0.0) && (c != 0.0 ==> c * lo < t)
    requires lo < v
    ensures (c + 1.0) * lo < t + v
  {
    assert (c + 1.0) * lo == c * lo + lo;
    if c == 0.0 {
      assert c * lo == 0.0;
    }
  }

  /** Adding one more value below `hi` to a sum of c values below `hi`. */
  lemma AddBelow(c: real, t: real, v: real, hi: real)
    requires (c == 0.0 ==> t == 0.0) && (c != 0.0 ==> t < c * hi)
    requires v < hi
    ensures t + v < (c + 1.0) * hi
  {
    assert (c + 1.0) * hi == c * hi + hi;
    if c == 0.0 {
      assert c * hi == 0.0;
    }
  }

  /** A quotient of a sum that lies strictly between count * lo and count * hi. */
  lemma QuotientWithin(t: real, c: real, lo: real, hi: real)
    requires c > 0.0 && c * lo < t < c * hi
    ensures lo < t / c < hi
  {
    var q := t / c;
    assert q * c == t;
    assert (q - lo) * c == t - c * lo > 0.0;
    assert (hi - q) * c == c * hi - t > 0.0;
  }

  /** The trimmed mean of class `cls`, as `groupby(...).mean()` computes it:
      the sum of the surviving values of the class over their number. */
  function ClassMean(values: seq<real>, labels: seq<Label>, lo: real, hi: real, cls: Label): (m: real)
    requires |labels| == |values|
    requires Survives(values, labels, lo, hi, cls)
    ensures lo < m < hi
  {
    var n := |values|;
    CountPositive(values, labels, lo, hi, cls, n);
    TotalAbove(values, labels, lo, hi, cls, n);
    TotalBelow(values, labels, lo, hi, cls, n);
    assert Survives(values, labels, lo, hi, cls);
    var c, t := Count(values, labels, lo, hi, cls, n) as real, Total(values, labels, lo, hi, cls, n);
    QuotientWithin(t, c, lo, hi);
    t / c
  }

  /** `frame[mask].groupby(labels)[f].mean().to_list()`: one mean per class
      that survives the trim, in label order; a class with no kept row has no
      entry, so the list may be shorter than two. */
  function GroupMeans(values: seq<real>, labels: seq<Label>, lo: real, hi: real): (r: seq<real>)
    requires |labels| == |values|
    ensures |r| <= 2
  {
    (if Survives(values, labels, lo, hi, 0) then [ClassMean(values, labels, lo, hi, 0)] else [])
    + (if Survives(values, labels, lo, hi, 1) then [ClassMean(values, labels, lo, hi, 1)] else [])
  }

  /** Every per-class mean lies strictly between the bounds of the trim. */
  lemma GroupMeansWithin(values: seq<real>, labels: seq<Label>, lo: real, hi: real)
    requires |labels| == |values|
    ensures forall m :: 0 <= m < |GroupMeans(values, labels, lo, hi)| ==> lo < GroupMeans(values, labels, lo, hi)[m] < hi
  {
    var s0, s1 := Survives(values, labels, lo, hi, 0), Survives(values, labels, lo, hi, 1);
    if s0 {
      var m0 := ClassMean(values, labels, lo, hi, 0);
    }
    if s1 {
      var m1 := ClassMean(values, labels, lo, hi, 1);
    }
  }

  lemma ProductNonNegative(a: real, b: real)
    requires a >= 0.0 && b >= 0.0
    ensures a * b >= 0.0
  {
  }

  /** `Series.quantile(q)` with pandas' default linear interpolation, for a
      column already in increasing order: the value at position
      `(n - 1) * q`, interpolated between its two neighbours. An empty column
      or a `q` outside [0, 1] gives 0 here (pandas gives NaN or raises). */
  function LinearQuantile(values: seq<real>, q: real): real
  {
    if |values| == 0 || q < 0.0 || q > 1.0 then 0.0
    else
      var n := (|values| - 1) as real;
      var h := n * q;
      assert 0.0 <= h <= n by {
        ProductNonNegative(n, q);
        ProductNonNegative(n, 1.0 - q);
      }
      var k := h.Floor;
      if k + 1 == |values| then values[k]
      else values[k] + (h - k as real) * (values[k + 1] - values[k])
  }

  /** Two columns that keep the same rows, with the same values in them,
      count and sum alike. */
  lemma {:induction false} CountTotalAgree(values: seq<real>, values': seq<real>, labels: seq<Label>, lo: real, hi: real,
                                           cls: Label, n: nat)
    requires |labels| == |values| == |values'| && n <= |values|
    requires forall k :: 0 <= k < |values| ==> (Kept(values, lo, hi, k) <==> Kept(values', lo, hi, k))
    requires forall k :: 0 <= k < |values| && Kept(values, lo, hi, k) ==> values'[k] == values[k]
    ensures Count(values, labels, lo, hi, cls, n) == Count(values', labels, lo, hi, cls, n)
    ensures Total(values, labels, lo, hi, cls, n) == Total(values', labels, lo, hi, cls, n)
  {
    if n > 0 {
      CountTotalAgree(values, values', labels, lo, hi, cls, n - 1);
    }
  }

  /** The trim keeps exactly the rows strictly between the bounds: rows
      outside them have no influence on the per-class means. */
  lemma TrimKeepsExactly(values: seq<real>, values': seq<real>, labels: seq<Label>, lo: real, hi: real)
    requires |labels| == |values| == |values'|
    requires forall k :: 0 <= k < |values| ==> (Kept(values, lo, hi, k) <==> Kept(values', lo, hi, k))
    requires forall k :: 0 <= k < |values| && Kept(values, lo, hi, k) ==> values'[k] == values[k]
    ensures GroupMeans(values, labels, lo, hi) == GroupMeans(values', labels, lo, hi)
  {
    CountTotalAgree(values, values', labels, lo, hi, 0, |values|);
    CountTotalAgree(values, values', labels, lo, hi, 1, |values|);
  }

  /** One cell of a numeric pandas column: a number, or the NaN that pads a
      ragged list when it is split into columns. */
  datatype Cell = Num(value: real) | NaN

  /** The cell in position `k` of a list padded with NaN. */
  function Slot(l: seq<real>, k: nat): Cell
  {
    if k < |l| then Num(l[k]) else NaN
  }

  /** A percentage difference as IEEE arithmetic produces it: a finite value,
      an infinity (a nonzero numerator over a zero train value), or NaN. */
  datatype Drift = Finite(pct: real) | Infinite | Undefined

  /** `100 * (train - test) / train`. */
  function PctDiff(train: Cell, test: Cell): (d: Drift)
    ensures d.Finite? <==> train.Num? && test.Num? && train.value != 0.0
    ensures d.Finite? ==> d.pct * train.value == 100.0 * (train.value - test.value)
    ensures d.Infinite? <==> train == Num(0.0) && test.Num? && test.value != 0.0
  {
    match (train, test)
    case (Num(a), Num(b)) =>
      if a != 0.0 then Finite(100.0 * (a - b) / a)
      else if b != 0.0 then Infinite
      else Undefined
    case _ => Undefined
  }

  function Abs(x: real): real
  {
    if x < 0.0 then -x else x
  }

  /** `np.abs(diff) > threshold`: strict; an infinity exceeds every finite
      threshold and NaN exceeds none. */
  predicate Exceeds(d: Drift, threshold: real)
  {
    match d
    case Finite(p) => Abs(p) > threshold
    case Infinite => true
    case Undefined => false
  }

  /** The two per-class differences of one feature, from the padded slots
      of its train and test per-class lists. */
  function ClassDrifts(trainStat: seq<real>, testStat: seq<real>): (Drift, Drift)
  {
    (PctDiff(Slot(trainStat, 0), Slot(testStat, 0)), PctDiff(Slot(trainStat, 1), Slot(testStat, 1)))
  }

  /** A feature is flagged when either class's difference exceeds the threshold. */
  predicate Flagged(trainStat: seq<real>, testStat: seq<real>, threshold: real)
  {
    var (d0, d1) := ClassDrifts(trainStat, testStat);
    Exceeds(d0, threshold) || Exceeds(d1, threshold)
  }

  /** The test value is recovered from the train value and the percentage. */
  lemma PctDiffInverse(a: real, b: real)
    requires a != 0.0
    ensures PctDiff(Num(a), Num(b)).Finite?
    ensures b == a * (1.0 - PctDiff(Num(a), Num(b)).pct / 100.0)
  {
    var p := PctDiff(Num(a), Num(b)).pct;
    assert p * a == 100.0 * (a - b);
    calc {
      a * (1.0 - p / 100.0);
      a - (p * a) / 100.0;
      a - (100.0 * (a - b)) / 100.0;
      b;
    }
  }

  /** With both classes present on both sides and nonzero train means, the
      flag is exactly "|diff class 0| > threshold or |diff class 1| > threshold". */
  lemma FlaggedTwoClasses(trainStat: seq<real>, testStat: seq<real>, threshold: real)
    requires |trainStat| == 2 && |testStat| == 2
    requires trainStat[0] != 0.0 && trainStat[1] != 0.0
    ensures Flagged(trainStat, testStat, threshold) <==>
      || Abs(100.0 * (trainStat[0] - testStat[0]) / trainStat[0]) > threshold
      || Abs(100.0 * (trainStat[1] - testStat[1]) / trainStat[1]) > threshold
  {
  }

  /** Equal statistics give a zero difference (or NaN): never flagged at a
      non-negative threshold. */
  lemma EqualStatsNotFlagged(stat: seq<real>, threshold: real)
    requires threshold >= 0.0
    ensures !Flagged(stat, stat, threshold)
  {
  }

  /** A larger threshold flags no more. */
  lemma FlaggedMonotone(trainStat: seq<real>, testStat: seq<real>, t1: real, t2: real)
    requires t1 <= t2
    ensures Flagged(trainStat, testStat, t2) ==> Flagged(trainStat, testStat, t1)
  {
  }

  /** The threshold test is strict: a difference equal to the threshold does not flag. */
  lemma ThresholdIsStrict(p: real)
    ensures !Exceeds(Finite(p), Abs(p)) && !Exceeds(Finite(-p), Abs(p))
  {
  }
}
