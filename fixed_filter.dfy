/** The drift filter as its docstring describes it: every feature is scored,
    and the features whose train and test statistics differ by more than the
    threshold are dropped from both frames once, after the loop. As written,
    the drop runs inside the loop on the list of every feature flagged so
    far, so a flag on any feature but the last makes the next iteration's
    drop raise `KeyError` (`DriftProperties.EarlyFlagRaises`). */
module FixedFilter {
  import opened Frames
  import opened Stats
  import opened Scoring
  import opened ClosedForm
  import opened DriftProperties

  /** The first feature from j on that the test frame lacks, or the number
      of features. */
  function FirstMissing(c: Call, j: nat): (m: nat)
    requires WellFormed(c) && j <= |c.train|
    ensures j <= m <= |c.train|
    ensures m < |c.train| ==> !HasColumn(c.test, Feature(c, m))
    ensures forall i :: j <= i < m ==> HasColumn(c.test, Feature(c, i))
    decreases |c.train| - j
  {
    if j == |c.train| || !HasColumn(c.test, Feature(c, j)) then j
    else FirstMissing(c, j + 1)
  }

  /** The test frame has every feature of the train frame. */
  predicate Covered(c: Call)
    requires WellFormed(c)
  {
    forall i :: 0 <= i < |c.train| ==> HasColumn(c.test, Feature(c, i))
  }

  /** `l_list` computed once, over the rows of every feature. */
  function FixedDrop(c: Call): seq<string>
    requires WellFormed(c) && Covered(c)
  {
    var n := |c.train|;
    var d := Differences(TrainRows(c, n), TestRows(c, n));
    LList(c.criteria, d, d, d, c.threshold)
  }

  /** The corrected call: score every feature (a feature the test frame
      lacks still raises `KeyError`), split the per-class lists of all of
      them into two columns (`ValueError` when no feature has both classes
      on a side), then drop the flagged features from both frames once. */
  function FixedRun(c: Call): Final
    requires WellFormed(c)
  {
    var n, m := |c.train|, FirstMissing(c, 0);
    if m < n then Final(MissingColumn(Feature(c, m)), c.train, c.test)
    else if n > 0 && !(Width(TrainRows(c, n)) == 2 && Width(TestRows(c, n)) == 2) then Final(ShapeMismatch, c.train, c.test)
    else Final(Ok, Remove(c.train, FixedDrop(c)), Remove(c.test, FixedDrop(c)))
  }

  /** The corrected drop list holds exactly the flagged features. */
  lemma FixedDropIsFlagged(c: Call)
    requires WellFormed(c) && Covered(c)
    ensures forall f :: f in FixedDrop(c) <==> exists i :: 0 <= i < |c.train| && Feature(c, i) == f && FlagAt(c, i)
  {
    var n := |c.train|;
    if ParseCriterion(c.criteria).Some? && n > 0 {
      var d := Differences(TrainRows(c, n), TestRows(c, n));
      var drop := FlaggedFeatures(d, c.threshold);
      assert FixedDrop(c) == drop;
      DiffsMatchFlags(c, n - 1);
      forall f ensures f in drop <==> exists i :: 0 <= i < n && Feature(c, i) == f && FlagAt(c, i) {
        if f in drop {
          var i :| 0 <= i < |d| && d[i].feature == f && RowFlagged(d[i], c.threshold);
          assert Feature(c, i) == f && FlagAt(c, i);
        }
        if exists i :: 0 <= i < n && Feature(c, i) == f && FlagAt(c, i) {
          var i :| 0 <= i < n && Feature(c, i) == f && FlagAt(c, i);
          assert d[i].feature == f && RowFlagged(d[i], c.threshold);
        }
      }
    }
  }

  /** The corrected drop names only columns both frames have, so it never
      raises. */
  lemma FixedDropSucceeds(c: Call)
    requires WellFormed(c) && Covered(c)
    ensures Missing(c.train, FixedDrop(c)) == [] && Missing(c.test, FixedDrop(c)) == []
  {
    var drop := FixedDrop(c);
    FixedDropIsFlagged(c);
    forall x | x in drop ensures HasColumn(c.train, x) && HasColumn(c.test, x) {
      var i :| 0 <= i < |c.train| && Feature(c, i) == x && FlagAt(c, i);
      assert c.train[i].name == x;
    }
    MissingNone(c.train, drop);
    MissingNone(c.test, drop);
  }

  /** When the corrected call returns, each frame keeps exactly its columns
      that are not flagged features. */
  lemma FixedDropsExactlyFlagged(c: Call)
    requires WellFormed(c) && FixedRun(c).outcome == Ok
    ensures forall col :: col in FixedRun(c).train <==>
      col in c.train && !exists i :: 0 <= i < |c.train| && Feature(c, i) == col.name && FlagAt(c, i)
    ensures forall col :: col in FixedRun(c).test <==>
      col in c.test && !exists i :: 0 <= i < |c.train| && Feature(c, i) == col.name && FlagAt(c, i)
  {
    assert Covered(c);
    FixedDropIsFlagged(c);
    RemoveMembers(c.train, FixedDrop(c));
    RemoveMembers(c.test, FixedDrop(c));
  }

  /** A larger threshold makes the corrected call drop no more features. */
  lemma FixedThresholdMonotone(c: Call, t: real)
    requires WellFormed(c) && Covered(c) && c.threshold <= t
    ensures var d := c.(threshold := t);
      WellFormed(d) && Covered(d) && forall f :: f in FixedDrop(d) ==> f in FixedDrop(c)
  {
    var d := c.(threshold := t);
    assert WellFormed(d);
    forall i | 0 <= i < |d.train| ensures HasColumn(d.test, Feature(d, i)) {
      assert Feature(d, i) == Feature(c, i);
    }
    FixedDropIsFlagged(c);
    FixedDropIsFlagged(d);
    forall i | 0 <= i < |c.train| ensures FlagAt(d, i) ==> FlagAt(c, i) {
      FlagAtMonotone(c, t, i);
    }
  }

  /** A call that returns had every feature in its test frame. */
  lemma OkCovered(c: Call)
    requires WellFormed(c) && Result(c) == Ok
    ensures Covered(c)
  {
    OkIff(c);
    forall i | 0 <= i < |c.train| ensures HasColumn(c.test, Feature(c, i)) {
      assert !Halts(c, i);
    }
  }

  /** A call that returns drops, as written, what the corrected call drops. */
  lemma OkFixedDrop(c: Call)
    requires WellFormed(c) && Result(c) == Ok && Covered(c)
    ensures FixedDrop(c) == Dropped(c)
  {
    var n := |c.train|;
    OkIff(c);
    OkOnlyLastFlagged(c);
    DroppedAtStop(c);
    if n > 0 {
      LListAtStep(c, n - 1);
      if n > 1 {
        assert !FlagAt(c, n - 2);
      }
    }
  }

  /** A call that returns has lists that split into two columns. */
  lemma OkFixedShape(c: Call)
    requires WellFormed(c) && Result(c) == Ok && Covered(c) && |c.train| > 0
    ensures Width(TrainRows(c, |c.train|)) == 2 && Width(TestRows(c, |c.train|)) == 2
  {
    OkIff(c);
    WidthAfterScoring(c, |c.train| - 1);
  }

  /** Where the code as written returns, the corrected call returns the
      same frames. */
  lemma FixedAgreesWhenOk(c: Call)
    requires WellFormed(c) && Result(c) == Ok
    ensures FixedRun(c) == Final(Ok, Remove(c.train, Dropped(c)), Remove(c.test, Dropped(c)))
  {
    OkCovered(c);
    assert FirstMissing(c, 0) == |c.train|;
    if |c.train| > 0 {
      OkFixedShape(c);
    }
    OkFixedDrop(c);
  }

  /** As written, a flagged feature that is not the last makes the call
      raise even when the corrected call returns and drops it. */
  lemma AsWrittenRaisesOnEarlyFlag(c: Call, i: nat)
    requires WellFormed(c) && i + 1 < |c.train| && FlagAt(c, i)
    requires FixedRun(c).outcome == Ok
    ensures Result(c) != Ok
    ensures Feature(c, i) in FixedDrop(c) && FixedRun(c).train == Remove(c.train, FixedDrop(c))
  {
    EarlyFlagRaises(c, i);
    FixedDropIsFlagged(c);
  }

  /** pandas' quantiles of a strictly increasing four-row column: the 5th
      percentile lies between rows 0 and 1, the 95th between rows 2 and 3. */
  lemma FourRowQuantiles(v: seq<real>)
    requires |v| == 4 && v[0] < v[1] < v[2] < v[3]
    ensures LinearQuantile(v, 0.05) == v[0] + 0.15 * (v[1] - v[0])
    ensures LinearQuantile(v, 0.95) == v[2] + 0.85 * (v[3] - v[2])
    ensures v[0] < LinearQuantile(v, 0.05) < v[1] && v[2] < LinearQuantile(v, 0.95) < v[3]
  {
    assert (3.0 * 0.05).Floor == 0;
    assert (3.0 * 0.95).Floor == 2;
  }

  /** A strictly increasing four-row column labelled `[0, 0, 1, 1]`: the trim
      keeps rows 1 and 2, so each class's mean is its one kept value. */
  lemma FourRowMeans(v: seq<real>)
    requires |v| == 4 && v[0] < v[1] < v[2] < v[3]
    ensures SplitStats(v, [0, 0, 1, 1], LinearQuantile).mean == [v[1], v[2]]
  {
    var labels: seq<Label> := [0, 0, 1, 1];
    var lo, hi := LinearQuantile(v, 0.05), LinearQuantile(v, 0.95);
    FourRowQuantiles(v);
    assert !Kept(v, lo, hi, 0) && Kept(v, lo, hi, 1) && Kept(v, lo, hi, 2) && !Kept(v, lo, hi, 3);
    assert Survives(v, labels, lo, hi, 0) && Survives(v, labels, lo, hi, 1);
    assert labels[0] == 0 && labels[1] == 0 && labels[2] == 1 && labels[3] == 1;
    assert Count(v, labels, lo, hi, 0, 4) == 1 && Total(v, labels, lo, hi, 0, 4) == v[1] by {
      assert Count(v, labels, lo, hi, 0, 1) == 0 && Total(v, labels, lo, hi, 0, 1) == 0.0;
      assert Count(v, labels, lo, hi, 0, 2) == 1 && Total(v, labels, lo, hi, 0, 2) == v[1];
      assert Count(v, labels, lo, hi, 0, 3) == 1 && Total(v, labels, lo, hi, 0, 3) == v[1];
    }
    assert Count(v, labels, lo, hi, 1, 4) == 1 && Total(v, labels, lo, hi, 1, 4) == v[2] by {
      assert Count(v, labels, lo, hi, 1, 1) == 0 && Total(v, labels, lo, hi, 1, 1) == 0.0;
      assert Count(v, labels, lo, hi, 1, 2) == 0 && Total(v, labels, lo, hi, 1, 2) == 0.0;
      assert Count(v, labels, lo, hi, 1, 3) == 1 && Total(v, labels, lo, hi, 1, 3) == v[2];
    }
    assert ClassMean(v, labels, lo, hi, 0) == v[1] / 1.0 == v[1];
    assert ClassMean(v, labels, lo, hi, 1) == v[2] / 1.0 == v[2];
  }

  /** Two features over four rows, with pandas' quantile: `a`, whose test
      values are twice its train values, and `b`, which is the same in both. */
  function Example(): (c: Call)
    ensures WellFormed(c)
  {
    var train := [Column("a", [1.0, 2.0, 3.0, 4.0]), Column("b", [1.0, 2.0, 3.0, 4.0])];
    var test := [Column("a", [2.0, 4.0, 6.0, 8.0]), Column("b", [1.0, 2.0, 3.0, 4.0])];
    Call(train, test, [0, 0, 1, 1], [0, 0, 1, 1], 10.0, "Mean", LinearQuantile)
  }

  /** The per-class statistics of the example. */
  lemma ExampleStats()
    ensures var c := Example();
      && HasColumn(c.test, Feature(c, 0)) && HasColumn(c.test, Feature(c, 1))
      && TrainStats(c, 0).mean == [2.0, 3.0] && TestStats(c, 0).mean == [4.0, 6.0]
      && TrainStats(c, 1).mean == [2.0, 3.0] && TestStats(c, 1).mean == [2.0, 3.0]
  {
    var c := Example();
    assert c.test[0].name == Feature(c, 0) && c.test[1].name == Feature(c, 1);
    FourRowMeans([1.0, 2.0, 3.0, 4.0]);
    FourRowMeans([2.0, 4.0, 6.0, 8.0]);
  }

  /** In the example `a` is flagged (both class means move by 100%) and `b`
      is not. */
  lemma ExampleFlags()
    ensures var c := Example();
      && Covered(c) && !Halts(c, 0) && FlagAt(c, 0) && !FlagAt(c, 1)
  {
    var c := Example();
    ExampleStats();
    assert PctDiff(Num(2.0), Num(4.0)) == Finite(-100.0);
    EqualStatsNotFlagged([2.0, 3.0], c.threshold);
  }

  /** On the example the code as written drops `a` and then raises
      `KeyError` for `a` at the second feature. */
  lemma ExampleAsWritten()
    ensures Result(Example()) == NotFound(["a"])
    ensures Dropped(Example()) == ["a"]
  {
    var c := Example();
    ExampleFlags();
    assert Halts(c, 1);
    HaltAt(c, 1);
  }

  /** In the example the corrected call scores both features and splits
      their lists into two columns. */
  lemma ExampleShape()
    ensures var c := Example();
      && FirstMissing(c, 0) == 2
      && Width(TrainRows(c, 2)) == 2 && Width(TestRows(c, 2)) == 2
  {
    var c := Example();
    ExampleFlags();
    WidthAfterScoring(c, 1);
  }

  /** In the example the corrected drop list is `["a"]`. */
  lemma ExampleDrop()
    ensures Covered(Example()) && FixedDrop(Example()) == ["a"]
  {
    var c := Example();
    ExampleFlags();
    LListAtStep(c, 1);
    assert DroppedBefore(c, 1) == ["a"];
  }

  /** On the example the corrected call returns, with only `b` left in
      each frame. */
  lemma ExampleFixed()
    ensures FixedRun(Example()) == Final(Ok, [Column("b", [1.0, 2.0, 3.0, 4.0])], [Column("b", [1.0, 2.0, 3.0, 4.0])])
  {
    ExampleShape();
    ExampleDrop();
  }

  /** Two features over four rows, at threshold t: `a` drifts by 50% in
      both classes, `b` by 100%. */
  function DriftPair(t: real): (c: Call)
    ensures WellFormed(c)
  {
    var train := [Column("a", [1.0, 2.0, 3.0, 4.0]), Column("b", [1.0, 2.0, 3.0, 4.0])];
    var test := [Column("a", [1.5, 3.0, 4.5, 6.0]), Column("b", [2.0, 4.0, 6.0, 8.0])];
    Call(train, test, [0, 0, 1, 1], [0, 0, 1, 1], t, "Mean", LinearQuantile)
  }

  /** The per-class statistics of `DriftPair`. */
  lemma DriftPairStats(t: real)
    ensures var c := DriftPair(t);
      && HasColumn(c.test, Feature(c, 0)) && HasColumn(c.test, Feature(c, 1))
      && TrainStats(c, 0).mean == [2.0, 3.0] && TestStats(c, 0).mean == [3.0, 4.5]
      && TrainStats(c, 1).mean == [2.0, 3.0] && TestStats(c, 1).mean == [4.0, 6.0]
  {
    var c := DriftPair(t);
    assert c.test[0].name == Feature(c, 0) && c.test[1].name == Feature(c, 1);
    FourRowMeans([1.0, 2.0, 3.0, 4.0]);
    FourRowMeans([1.5, 3.0, 4.5, 6.0]);
    FourRowMeans([2.0, 4.0, 6.0, 8.0]);
  }

  /** The flags of `DriftPair`: `a` is flagged exactly below 50, `b` below 100. */
  lemma DriftPairFlags(t: real)
    requires 0.0 <= t
    ensures var c := DriftPair(t);
      && Covered(c) && !Halts(c, 0)
      && (FlagAt(c, 0) <==> t < 50.0) && (FlagAt(c, 1) <==> t < 100.0)
  {
    var c := DriftPair(t);
    DriftPairStats(t);
    assert PctDiff(Num(2.0), Num(3.0)) == Finite(-50.0);
    assert PctDiff(Num(3.0), Num(4.5)) == Finite(-50.0);
    assert PctDiff(Num(2.0), Num(4.0)) == Finite(-100.0);
    assert PctDiff(Num(3.0), Num(6.0)) == Finite(-100.0);
  }

  /** For a call that raises, a larger threshold can remove a column the
      smaller one did not: at 10, `a` is removed and the next iteration
      raises; at 60, the call returns having removed `b`. So the subset form
      of `DriftProperties.ThresholdMonotone` needs the call to return. */
  lemma ThresholdSubsetNeedsOk()
    ensures Result(DriftPair(10.0)) == NotFound(["a"]) && Dropped(DriftPair(10.0)) == ["a"]
    ensures Result(DriftPair(60.0)) == Ok && Dropped(DriftPair(60.0)) == ["b"]
  {
    var lo, hi := DriftPair(10.0), DriftPair(60.0);
    DriftPairFlags(10.0);
    DriftPairFlags(60.0);
    assert Halts(lo, 1);
    HaltAt(lo, 1);
    assert !Halts(hi, 1);
    RunsThrough(hi);
  }
}
