/** What a call of `feature_target_dist` does, stated about the closed form
    that `DriftFilter.FeatureTargetDist` is proved to reach. */
module DriftProperties {
  import opened Frames
  import opened Stats
  import opened Scoring
  import opened ClosedForm

  /** The call returns exactly when no iteration raises. */
  lemma OkIff(c: Call)
    requires WellFormed(c)
    ensures Result(c) == Ok <==> forall i :: 0 <= i < |c.train| ==> !Halts(c, i)
  {
    var h := Stop(c, 0);
    if h < |c.train| {
      assert Halts(c, h);
    }
  }

  /** A flag on any feature but the last makes the next iteration raise:
      the call cannot return. */
  lemma EarlyFlagRaises(c: Call, i: nat)
    requires WellFormed(c) && i + 1 < |c.train|
    requires FlagAt(c, i)
    ensures Stop(c, 0) <= i + 1
    ensures Result(c) != Ok
  {
    assert Halts(c, i + 1);
    OkIff(c);
  }

  /** The columns removed: the flagged feature just before the first
      raising iteration, or the flagged last feature when none raises. This
      restates the definitions of `Dropped` and `DroppedBefore`, for use by
      the lemmas below. */
  lemma DroppedAtStop(c: Call)
    requires WellFormed(c)
    ensures var h := Stop(c, 0);
      Dropped(c) == if h > 0 && FlagAt(c, h - 1) then [Feature(c, h - 1)] else []
  {
  }

  /** Whatever the outcome, at most one column is removed, and it is a
      flagged feature. */
  lemma DroppedIsFlagged(c: Call)
    requires WellFormed(c)
    ensures |Dropped(c)| <= 1
    ensures forall f :: f in Dropped(c) ==> exists i :: 0 <= i < |c.train| && Feature(c, i) == f && FlagAt(c, i)
  {
    DroppedAtStop(c);
  }

  /** When the call returns, no feature but the last is flagged. */
  lemma OkOnlyLastFlagged(c: Call)
    requires WellFormed(c) && Result(c) == Ok
    ensures Stop(c, 0) == |c.train|
    ensures forall i :: 0 <= i < |c.train| - 1 ==> !FlagAt(c, i)
  {
    OkIff(c);
    forall i | 0 <= i < |c.train| - 1 ensures !FlagAt(c, i) {
      assert !Halts(c, i + 1);
    }
  }

  /** When the call returns, it has removed exactly the flagged features:
      only the last feature can be one. */
  lemma OkDropsExactlyFlagged(c: Call)
    requires WellFormed(c) && Result(c) == Ok
    ensures forall f :: f in Dropped(c) <==> exists i :: 0 <= i < |c.train| && Feature(c, i) == f && FlagAt(c, i)
    ensures forall i :: 0 <= i < |c.train| - 1 ==> !FlagAt(c, i)
  {
    OkOnlyLastFlagged(c);
    DroppedIsFlagged(c);
    DroppedAtStop(c);
    var n := |c.train|;
    forall f | exists i :: 0 <= i < n && Feature(c, i) == f && FlagAt(c, i) ensures f in Dropped(c) {
      var i :| 0 <= i < n && Feature(c, i) == f && FlagAt(c, i);
      assert i == n - 1;
    }
  }

  /** A criterion other than the three drops nothing: the frames are left
      as they are and no drop raises. */
  lemma InvalidCriterionDropsNothing(c: Call)
    requires WellFormed(c) && ParseCriterion(c.criteria) == None
    ensures Dropped(c) == []
    ensures Remove(c.train, Dropped(c)) == c.train && Remove(c.test, Dropped(c)) == c.test
    ensures !Result(c).NotFound?
  {
    var h := Stop(c, 0);
    if h > 0 {
      assert !FlagAt(c, h - 1);
    }
  }

  /** The first iteration that raises from j on is the same for two calls
      whose iterations raise alike. */
  lemma {:induction false} StopAgree(c: Call, d: Call, j: nat)
    requires WellFormed(c) && WellFormed(d) && |d.train| == |c.train| && j <= |c.train|
    requires forall i :: 0 <= i < |c.train| ==> Halts(c, i) == Halts(d, i)
    ensures Stop(c, j) == Stop(d, j)
    decreases |c.train| - j
  {
    if j < |c.train| && !Halts(c, j) {
      StopAgree(c, d, j + 1);
    }
  }

  /** Two calls on the same frames whose features are flagged alike end
      alike. */
  lemma SameFlagsSameEnd(c: Call, d: Call)
    requires WellFormed(c) && d.train == c.train && d.test == c.test && d.yTrain == c.yTrain
    requires d.yTest == c.yTest && d.quantile == c.quantile
    requires forall i :: 0 <= i < |c.train| ==> FlagAt(c, i) == FlagAt(d, i)
    ensures Result(d) == Result(c) && Dropped(d) == Dropped(c)
  {
    assert WellFormed(d);
    forall i | 0 <= i < |c.train| ensures Halts(c, i) == Halts(d, i) {
      if i > 0 {
        assert FlagAt(c, i - 1) == FlagAt(d, i - 1);
      }
    }
    StopAgree(c, d, 0);
  }

  /** `Mean`, `Median` and `Std` flag the same features, since all three
      statistics are the mean: the call ends the same under any of them. */
  lemma CriteriaAgree(c: Call, other: string)
    requires WellFormed(c)
    requires ParseCriterion(c.criteria).Some? && ParseCriterion(other).Some?
    ensures var d := c.(criteria := other);
      Result(d) == Result(c) && Dropped(d) == Dropped(c)
  {
    var d := c.(criteria := other);
    forall i | 0 <= i < |c.train| ensures FlagAt(c, i) == FlagAt(d, i) {
      if HasColumn(c.test, Feature(c, i)) {
        var crit, crit' := ParseCriterion(c.criteria).value, ParseCriterion(other).value;
        assert Statistic(TrainStats(c, i), crit) == TrainStats(c, i).mean == Statistic(TrainStats(d, i), crit');
        assert Statistic(TestStats(c, i), crit) == TestStats(c, i).mean == Statistic(TestStats(d, i), crit');
      }
    }
    SameFlagsSameEnd(c, d);
  }

  /** Raising the threshold flags no more features. */
  lemma FlagAtMonotone(c: Call, t: real, i: nat)
    requires WellFormed(c) && c.threshold <= t && i < |c.train|
    ensures FlagAt(c.(threshold := t), i) ==> FlagAt(c, i)
  {
    var d := c.(threshold := t);
    if FlagAt(d, i) {
      var crit := ParseCriterion(c.criteria).value;
      FlaggedMonotone(Statistic(TrainStats(c, i), crit), Statistic(TestStats(c, i), crit), c.threshold, t);
    }
  }

  /** Raising the threshold makes no iteration raise that did not before. */
  lemma HaltsMonotone(c: Call, t: real, i: nat)
    requires WellFormed(c) && c.threshold <= t && i < |c.train|
    ensures Halts(c.(threshold := t), i) ==> Halts(c, i)
  {
    if i > 0 {
      FlagAtMonotone(c, t, i - 1);
    }
  }

  /** A call that returns at some threshold also returns at any larger one. */
  lemma ThresholdKeepsOk(c: Call, t: real)
    requires WellFormed(c) && c.threshold <= t && Result(c) == Ok
    ensures Result(c.(threshold := t)) == Ok
  {
    var d := c.(threshold := t);
    assert WellFormed(d);
    OkIff(c);
    forall i | 0 <= i < |c.train| ensures !Halts(d, i) {
      HaltsMonotone(c, t, i);
    }
    OkIff(d);
  }

  /** A call that returns at some threshold also returns at any larger one,
      and removes no column it did not remove before. */
  lemma ThresholdMonotone(c: Call, t: real)
    requires WellFormed(c) && c.threshold <= t && Result(c) == Ok
    ensures var d := c.(threshold := t);
      && Result(d) == Ok
      && forall f :: f in Dropped(d) ==> f in Dropped(c)
  {
    var d := c.(threshold := t);
    ThresholdKeepsOk(c, t);
    OkOnlyLastFlagged(c);
    OkOnlyLastFlagged(d);
    DroppedAtStop(c);
    DroppedAtStop(d);
    if |c.train| > 0 {
      FlagAtMonotone(c, t, |c.train| - 1);
    }
  }

  /** Two calls that differ only in the threshold raise alike at an
      iteration unless the previous feature's flag differs. */
  lemma HaltsByFlag(c: Call, t: real, i: nat)
    requires WellFormed(c) && i < |c.train|
    requires Halts(c, i) && !Halts(c.(threshold := t), i)
    ensures i > 0 && FlagAt(c, i - 1)
  {
    var d := c.(threshold := t);
    assert Feature(d, i) == Feature(c, i);
    assert TrainStats(d, 0) == TrainStats(c, 0);
    if HasColumn(c.test, Feature(c, 0)) {
      assert TestStats(d, 0) == TestStats(c, 0);
    }
  }

  /** Whatever the outcome, a larger threshold removes no more columns. */
  lemma ThresholdDropsNoMore(c: Call, t: real)
    requires WellFormed(c) && c.threshold <= t
    ensures var d := c.(threshold := t);
      WellFormed(d) && |Dropped(d)| <= |Dropped(c)|
  {
    var d := c.(threshold := t);
    assert WellFormed(d);
    var hc, hd := Stop(c, 0), Stop(d, 0);
    DroppedAtStop(c);
    DroppedAtStop(d);
    if hd > 0 && FlagAt(d, hd - 1) {
      if hd < |c.train| {
        HaltsMonotone(c, t, hd);
      }
      if hc < hd {
        HaltsByFlag(c, t, hc);
      } else {
        FlagAtMonotone(c, t, hd - 1);
      }
    }
  }

  /** A test frame identical to the train frame, with the same labels, is
      never flagged at a non-negative threshold: nothing is removed, and the
      call returns unless the first feature lacks a class. */
  lemma IdenticalSplitsNeverFlag(c: Call)
    requires WellFormed(c) && c.test == c.train && c.yTest == c.yTrain && c.threshold >= 0.0
    ensures Dropped(c) == []
    ensures Result(c) == Ok || Result(c) == ShapeMismatch
  {
    var n := |c.train|;
    forall i | 0 <= i < n ensures HasColumn(c.test, Feature(c, i)) && !FlagAt(c, i) {
      assert c.test[i].name == Feature(c, i);
      assert TestStats(c, i) == TrainStats(c, i);
      if ParseCriterion(c.criteria).Some? {
        EqualStatsNotFlagged(Statistic(TrainStats(c, i), ParseCriterion(c.criteria).value), c.threshold);
      }
    }
  }

  /** The same list is removed from both frames: frames with the same
      column names before the call have the same column names after it. */
  lemma SameColumnsAfter(c: Call)
    requires WellFormed(c) && Names(c.train) == Names(c.test)
    ensures Names(Remove(c.train, Dropped(c))) == Names(Remove(c.test, Dropped(c)))
  {
    RemoveSameNames(c.train, c.test, Dropped(c));
  }

  /** Every per-class statistic of a split lies strictly between the split's
      own 5th and 95th percentile. */
  lemma SplitStatsWithin(values: seq<real>, labels: seq<Label>, quantile: (seq<real>, real) -> real)
    requires |labels| == |values|
    ensures var s := SplitStats(values, labels, quantile);
      forall m :: 0 <= m < |s.mean| ==> quantile(values, 0.05) < s.mean[m] < quantile(values, 0.95)
  {
    GroupMeansWithin(values, labels, quantile(values, 0.05), quantile(values, 0.95));
  }

  /** The three train accumulator lists only grow, one entry per feature in
      the order of the train frame's columns. */
  lemma ListsAppendOnly(c: Call, j: nat, k: nat)
    requires WellFormed(c) && j <= k <= |c.train|
    ensures TrainRows(c, j) == TrainRows(c, k)[..j]
    ensures forall i :: 0 <= i < j ==> TrainRows(c, j)[i].feature == c.train[i].name
  {
    TrainRowsAt(c, j);
    TrainRowsAt(c, k);
  }

  /** The three test accumulator lists likewise, while every feature so far
      is in the test frame: also in the order of the train frame's columns. */
  lemma TestListsAppendOnly(c: Call, j: nat, k: nat)
    requires WellFormed(c) && j <= k <= |c.train|
    requires forall i :: 0 <= i < k ==> HasColumn(c.test, Feature(c, i))
    ensures TestRows(c, j) == TestRows(c, k)[..j]
    ensures forall i :: 0 <= i < j ==> TestRows(c, j)[i].feature == c.train[i].name
  {
    TestRowsAt(c, j);
    TestRowsAt(c, k);
  }
}
