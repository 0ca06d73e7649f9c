/** `feature_target_dist`: for every feature of the train frame, trim each
    split to the rows strictly between that split's own 5th and 95th
    percentile, take the per-class mean, compare train with test as a
    percentage, and drop the features whose difference exceeds the threshold
    on the chosen criterion from both frames, in place.

    The model keeps the code as written: the "median" and "std" statistics are
    the mean aggregation, and the drop runs inside the per-feature loop on the
    list of every feature flagged so far, so a flag on any feature but the
    last makes the next iteration's drop raise `KeyError`. */
module DriftFilter {
  import opened Frames
  import opened Stats
  import opened Scoring
  import opened ClosedForm

  /** Lines 85-101: drop `l_list` from the train frame, then from the test
      frame, in place; a drop that names an absent column raises `KeyError`
      and leaves that frame as it was (and stops before the test frame). An
      unknown criterion drops nothing. */
  method DropFlagged(xTrain: Frame, xTest: Frame, criteria: string, threshold: real,
                     meanDiffs: seq<DiffRow>, medianDiffs: seq<DiffRow>, stdDiffs: seq<DiffRow>)
    returns (trainMissing: seq<string>, testMissing: seq<string>)
    requires xTrain != xTest
    requires xTrain.Valid() && xTest.Valid()
    modifies xTrain, xTest
    ensures xTrain.Valid() && xTest.Valid()
    ensures var l := LList(criteria, meanDiffs, medianDiffs, stdDiffs, threshold);
      && trainMissing == Missing(old(xTrain.columns), l)
      && xTrain.columns == (if trainMissing == [] then Remove(old(xTrain.columns), l) else old(xTrain.columns))
      && testMissing == (if trainMissing == [] then Missing(old(xTest.columns), l) else [])
      && xTest.columns == (if trainMissing == [] && testMissing == [] then Remove(old(xTest.columns), l) else old(xTest.columns))
  {
    trainMissing, testMissing := [], [];
    if criteria == "Mean" || criteria == "Median" || criteria == "Std" {
      var diffs := if criteria == "Mean" then meanDiffs else if criteria == "Median" then medianDiffs else stdDiffs;
      var lList := FlaggedFeatures(diffs, threshold);
      trainMissing := xTrain.Drop(lList);
      if trainMissing == [] {
        testMissing := xTest.Drop(lList);
      }
    }
  }

  /** Lines 21-103 as written: the loop over the features, which changes the
      frames in place and ends as `Scoring.Run` says. */
  method FeatureLoop(xTrain: Frame, xTest: Frame, yTrain: seq<Label>, yTest: seq<Label>,
                     threshold: real, criteria: string, quantile: (seq<real>, real) -> real)
    returns (outcome: Outcome)
    requires xTrain != xTest
    requires xTrain.Valid() && xTest.Valid()
    requires |yTrain| == xTrain.height && |yTest| == xTest.height
    modifies xTrain, xTest
    ensures xTrain.Valid() && xTest.Valid()
    ensures var c := Call(old(xTrain.columns), old(xTest.columns), yTrain, yTest, threshold, criteria, quantile);
      && WellFormed(c)
      && Run(c, 0, Start(c)) == Final(outcome, xTrain.columns, xTest.columns)
  {
    ghost var c := Call(xTrain.columns, xTest.columns, yTrain, yTest, threshold, criteria, quantile);
    var features := Names(xTrain.columns);
    var trainMeans, trainMedians, trainStds: seq<Entry> := [], [], [];
    var testMeans, testMedians, testStds: seq<Entry> := [], [], [];
    var j := 0;
    while j < |features|
      invariant features == Names(c.train) && j <= |features|
      invariant xTrain.Valid() && xTest.Valid()
      invariant Heights(xTrain.columns, |yTrain|) && Heights(xTest.columns, |yTest|)
      invariant Aligned(Lists(trainMeans, trainMedians, trainStds, testMeans, testMedians, testStds))
      invariant Run(c, j, State(xTrain.columns, xTest.columns, Lists(trainMeans, trainMedians, trainStds, testMeans, testMedians, testStds)))
        == Run(c, 0, Start(c))
    {
      var f := features[j];
      assert f == Feature(c, j);
      ghost var s := State(xTrain.columns, xTest.columns, Lists(trainMeans, trainMedians, trainStds, testMeans, testMedians, testStds));
      assert Run(c, j, s) == Run(c, 0, Start(c));
      // X_train[i] and X_test[i] raise KeyError when the frame lacks the column
      if !HasColumn(xTrain.columns, f) || !HasColumn(xTest.columns, f) {
        RunRaised(c, j, s, MissingColumn(f), s.train, s.test);
        return MissingColumn(f);
      }
      var trainCol, testCol := Lookup(xTrain.columns, f), Lookup(xTest.columns, f);
      // the quantile bounds and the grouped aggregations of each split
      var trainStats := SplitStats(trainCol, yTrain, quantile);
      var testStats := SplitStats(testCol, yTest, quantile);
      trainMeans := trainMeans + [Entry(f, trainStats.mean)];
      trainMedians := trainMedians + [Entry(f, trainStats.median)];
      trainStds := trainStds + [Entry(f, trainStats.std)];
      testMeans := testMeans + [Entry(f, testStats.mean)];
      testMedians := testMedians + [Entry(f, testStats.median)];
      testStds := testStds + [Entry(f, testStats.std)];
      ghost var l := Lists(trainMeans, trainMedians, trainStds, testMeans, testMedians, testStds);
      assert l == Scored(f, trainStats, testStats, s.lists);

      // splitting each per-class list into two columns of `mms`
      if Width(trainMeans) != 2 || Width(testMeans) != 2 || Width(trainMedians) != 2
         || Width(testMedians) != 2 || Width(trainStds) != 2 || Width(testStds) != 2
      {
        assert !SplitsIntoTwo(l);
        RunRaised(c, j, s, ShapeMismatch, s.train, s.test);
        return ShapeMismatch;
      }

      var meanDiffs := Differences(trainMeans, testMeans);
      var medianDiffs := Differences(trainMedians, testMedians);
      var stdDiffs := Differences(trainStds, testStds);
      assert SplitsIntoTwo(l);
      ghost var drop := Dropping(c, l);
      assert drop == LList(criteria, meanDiffs, medianDiffs, stdDiffs, threshold);
      var trainMissing, testMissing := DropFlagged(xTrain, xTest, criteria, threshold, meanDiffs, medianDiffs, stdDiffs);
      if trainMissing != [] {
        RunRaised(c, j, s, NotFound(trainMissing), s.train, s.test);
        return NotFound(trainMissing);
      }
      if testMissing != [] {
        RunRaised(c, j, s, NotFound(testMissing), xTrain.columns, s.test);
        return NotFound(testMissing);
      }
      RunNext(c, j, s, State(xTrain.columns, xTest.columns, l));
      j := j + 1;
    }
    outcome := Ok;
  }

  /** The routine itself. The frames are changed in place; the returned
      outcome says whether the call returned them or raised, and in both
      cases the frames hold what the code leaves in them: the columns named
      by `Dropped` are gone from both, and nothing else changed. */
  method FeatureTargetDist(xTrain: Frame, xTest: Frame, yTrain: seq<Label>, yTest: seq<Label>,
                           threshold: real, criteria: string, quantile: (seq<real>, real) -> real)
    returns (outcome: Outcome)
    requires xTrain != xTest
    requires xTrain.Valid() && xTest.Valid()
    requires |yTrain| == xTrain.height && |yTest| == xTest.height
    modifies xTrain, xTest
    ensures xTrain.Valid() && xTest.Valid()
    ensures var c := Call(old(xTrain.columns), old(xTest.columns), yTrain, yTest, threshold, criteria, quantile);
      && WellFormed(c)
      && outcome == Result(c)
      && xTrain.columns == Remove(c.train, Dropped(c))
      && xTest.columns == Remove(c.test, Dropped(c))
  {
    ghost var c := Call(xTrain.columns, xTest.columns, yTrain, yTest, threshold, criteria, quantile);
    outcome := FeatureLoop(xTrain, xTest, yTrain, yTest, threshold, criteria, quantile);
    RunMatches(c);
  }
}
