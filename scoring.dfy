/** The per-feature steps of `feature_target_dist` as functions on values:
    the criterion, the statistics of one split, the accumulator lists, the
    split into per-class columns, the percentage differences, the list of
    features to drop, and one pass of the loop body with the frames and lists
    it carries. `Run` is the whole loop; the method in `DriftFilter` computes
    the same steps in place. */
module Scoring {
  import opened Frames
  import opened Stats

  datatype Option<T> = None | Some(value: T)

  /** The three values of the `criteria` argument that select a statistic. */
  datatype Criterion = ByMean | ByMedian | ByStd

  function ParseCriterion(s: string): Option<Criterion>
  {
    if s == "Mean" then Some(ByMean)
    else if s == "Median" then Some(ByMedian)
    else if s == "Std" then Some(ByStd)
    else None
  }

  /** The per-class lists one split contributes to `*_means`, `*_medians`
      and `*_stds` for one feature. */
  datatype ClassStats = ClassStats(mean: seq<real>, median: seq<real>, std: seq<real>)

  /** The statistics of one feature in one split: bounds from the split's own
      column, then the grouped aggregation, which is `.mean()` for all three. */
  function SplitStats(values: seq<real>, labels: seq<Label>, quantile: (seq<real>, real) -> real): (s: ClassStats)
    requires |labels| == |values|
    ensures s.median == s.mean && s.std == s.mean
    ensures |s.mean| <= 2
  {
    var lo, hi := quantile(values, 0.05), quantile(values, 0.95);
    ClassStats(GroupMeans(values, labels, lo, hi), GroupMeans(values, labels, lo, hi), GroupMeans(values, labels, lo, hi))
  }

  function Statistic(s: ClassStats, crit: Criterion): seq<real>
  {
    match crit
    case ByMean => s.mean
    case ByMedian => s.median
    case ByStd => s.std
  }

  /** One element `[feature, per-class list]` of an accumulator list. */
  datatype Entry = Entry(feature: string, perClass: seq<real>)

  /** The number of columns pandas builds from the per-class lists: the
      length of the longest one. */
  function Width(rows: seq<Entry>): (w: nat)
    ensures forall i :: 0 <= i < |rows| ==> |rows[i].perClass| <= w
    ensures rows == [] ==> w == 0
    ensures rows != [] ==> exists i :: 0 <= i < |rows| && w == |rows[i].perClass|
  {
    if rows == [] then 0
    else
      var rest := Width(rows[1..]);
      assert forall i :: 1 <= i < |rows| ==> rows[i] == rows[1..][i - 1];
      if |rows[0].perClass| >= rest then |rows[0].perClass| else rest
  }

  /** One row of the difference columns of `mms` for one statistic. */
  datatype DiffRow = DiffRow(feature: string, class0: Drift, class1: Drift)

  predicate RowFlagged(row: DiffRow, threshold: real)
  {
    Exceeds(row.class0, threshold) || Exceeds(row.class1, threshold)
  }

  /** The `*_Diff_0` and `*_Diff_1` cells of one row, from the train and
      test lists split into two NaN-padded columns. */
  function DiffOf(train: Entry, test: Entry): (r: DiffRow)
    ensures forall t :: RowFlagged(r, t) <==> Flagged(train.perClass, test.perClass, t)
  {
    var (d0, d1) := ClassDrifts(train.perClass, test.perClass);
    DiffRow(train.feature, d0, d1)
  }

  /** The difference columns of `mms`, one row per scored feature. */
  function Differences(train: seq<Entry>, test: seq<Entry>): (r: seq<DiffRow>)
    requires |train| == |test|
    ensures |r| == |train|
    decreases |train|
  {
    if train == [] then []
    else
      var last := |train| - 1;
      Differences(train[..last], test[..last]) + [DiffOf(train[last], test[last])]
  }

  /** Row i of the difference table comes from row i of each list. */
  lemma {:induction false} DifferencesAt(train: seq<Entry>, test: seq<Entry>)
    requires |train| == |test|
    ensures forall i :: 0 <= i < |train| ==> Differences(train, test)[i] == DiffOf(train[i], test[i])
    decreases |train|
  {
    if train != [] {
      var last := |train| - 1;
      var tr, te := train[..last], test[..last];
      DifferencesAt(tr, te);
      var prev := Differences(tr, te);
      forall i | 0 <= i < |train| ensures Differences(train, test)[i] == DiffOf(train[i], test[i]) {
        if i < last {
          assert (prev + [DiffOf(train[last], test[last])])[i] == prev[i];
          assert tr[i] == train[i] && te[i] == test[i];
        }
      }
    }
  }

  /** `l_list`: the features of the flagged rows, in row order. */
  function FlaggedFeatures(rows: seq<DiffRow>, threshold: real): (r: seq<string>)
    ensures forall x :: x in r <==> exists i :: 0 <= i < |rows| && rows[i].feature == x && RowFlagged(rows[i], threshold)
  {
    if rows == [] then []
    else
      var last := |rows| - 1;
      var rest := FlaggedFeatures(rows[..last], threshold);
      assert forall i :: 0 <= i < last ==> rows[..last][i] == rows[i];
      rest + (if RowFlagged(rows[last], threshold) then [rows[last].feature] else [])
  }


  /** What a call ends with: it returns both frames, or raises. */
  datatype Outcome =
    | Ok
    | MissingColumn(name: string)   // `X_train[i]` or `X_test[i]` raises KeyError
    | ShapeMismatch                 // lines 63-70 raise ValueError
    | NotFound(labels: seq<string>) // a `drop` raises KeyError

  /** The arguments of one call, with the frames' columns at entry. */
  datatype Call = Call(train: seq<Column>, test: seq<Column>, yTrain: seq<Label>, yTest: seq<Label>,
                       threshold: real, criteria: string, quantile: (seq<real>, real) -> real)

  /** The j-th entry of `features = X_train.columns.to_list()`. */
  function Feature(c: Call, j: nat): string
    requires j < |c.train|
  {
    c.train[j].name
  }

  /** The six accumulator lists of lines 23-29. */
  datatype Lists = Lists(trainMeans: seq<Entry>, trainMedians: seq<Entry>, trainStds: seq<Entry>,
                         testMeans: seq<Entry>, testMedians: seq<Entry>, testStds: seq<Entry>)

  /** The six lists have one entry per scored feature. */
  predicate Aligned(l: Lists)
  {
    var n := |l.trainMeans|;
    |l.trainMedians| == n && |l.trainStds| == n && |l.testMeans| == n && |l.testMedians| == n && |l.testStds| == n
  }

  /** What the loop carries from one feature to the next: the columns of
      both frames and the six lists. */
  datatype State = State(train: seq<Column>, test: seq<Column>, lists: Lists)

  /** How one pass of the loop body ends: on to the next feature, or a raise
      with the columns the frames hold at that moment. */
  datatype Step = Next(state: State) | Raised(outcome: Outcome, train: seq<Column>, test: seq<Column>)

  /** How a call ends: its outcome and the columns the frames hold afterwards. */
  datatype Final = Final(outcome: Outcome, train: seq<Column>, test: seq<Column>)

  /** Lines 38-44: feature f's per-class statistics of each split appended
      to the six lists. */
  function Scored(f: string, trainStats: ClassStats, testStats: ClassStats, l: Lists): (r: Lists)
    ensures Aligned(l) ==> Aligned(r)
  {
    Lists(l.trainMeans + [Entry(f, trainStats.mean)], l.trainMedians + [Entry(f, trainStats.median)],
          l.trainStds + [Entry(f, trainStats.std)], l.testMeans + [Entry(f, testStats.mean)],
          l.testMedians + [Entry(f, testStats.median)], l.testStds + [Entry(f, testStats.std)])
  }

  /** Lines 63-70 succeed: every list of per-class values splits into
      exactly two columns. */
  predicate SplitsIntoTwo(l: Lists)
  {
    && Width(l.trainMeans) == 2 && Width(l.testMeans) == 2
    && Width(l.trainMedians) == 2 && Width(l.testMedians) == 2
    && Width(l.trainStds) == 2 && Width(l.testStds) == 2
  }

  /** The `l_list` of lines 85-99: the features flagged on the statistic
      the criterion selects; nothing for any other criterion. */
  function LList(criteria: string, meanDiffs: seq<DiffRow>, medianDiffs: seq<DiffRow>, stdDiffs: seq<DiffRow>,
                 threshold: real): (r: seq<string>)
    ensures ParseCriterion(criteria).None? ==> r == []
    ensures criteria == "Mean" ==> forall x :: x in r <==>
      exists i :: 0 <= i < |meanDiffs| && meanDiffs[i].feature == x && RowFlagged(meanDiffs[i], threshold)
    ensures criteria == "Median" ==> forall x :: x in r <==>
      exists i :: 0 <= i < |medianDiffs| && medianDiffs[i].feature == x && RowFlagged(medianDiffs[i], threshold)
    ensures criteria == "Std" ==> forall x :: x in r <==>
      exists i :: 0 <= i < |stdDiffs| && stdDiffs[i].feature == x && RowFlagged(stdDiffs[i], threshold)
  {
    match ParseCriterion(criteria)
    case None => []
    case Some(ByMean) => FlaggedFeatures(meanDiffs, threshold)
    case Some(ByMedian) => FlaggedFeatures(medianDiffs, threshold)
    case Some(ByStd) => FlaggedFeatures(stdDiffs, threshold)
  }

  /** Lines 75-99: `l_list` over every row of `mms` built so far. */
  function Dropping(c: Call, l: Lists): seq<string>
    requires Aligned(l)
  {
    LList(c.criteria, Differences(l.trainMeans, l.testMeans), Differences(l.trainMedians, l.testMedians),
          Differences(l.trainStds, l.testStds), c.threshold)
  }

  /** One pass of the loop body for feature f, from the state the previous
      passes left. */
  function StepAt(c: Call, f: string, s: State): (r: Step)
    requires Heights(s.train, |c.yTrain|) && Heights(s.test, |c.yTest|) && Aligned(s.lists)
    ensures r.Next? ==> Heights(r.state.train, |c.yTrain|) && Heights(r.state.test, |c.yTest|) && Aligned(r.state.lists)
    ensures r.Raised? ==> Heights(r.train, |c.yTrain|) && Heights(r.test, |c.yTest|)
  {
    if !HasColumn(s.train, f) || !HasColumn(s.test, f) then Raised(MissingColumn(f), s.train, s.test)
    else
      var trainCol, testCol := Lookup(s.train, f), Lookup(s.test, f);
      var l := Scored(f, SplitStats(trainCol, c.yTrain, c.quantile), SplitStats(testCol, c.yTest, c.quantile), s.lists);
      if !SplitsIntoTwo(l) then Raised(ShapeMismatch, s.train, s.test)
      else
        var drop := Dropping(c, l);
        var trainMissing := Missing(s.train, drop);
        if trainMissing != [] then Raised(NotFound(trainMissing), s.train, s.test)
        else
          var testMissing := Missing(s.test, drop);
          RemoveHeights(s.train, drop, |c.yTrain|);
          RemoveHeights(s.test, drop, |c.yTest|);
          if testMissing != [] then Raised(NotFound(testMissing), Remove(s.train, drop), s.test)
          else Next(State(Remove(s.train, drop), Remove(s.test, drop), l))
  }

  /** The loop over features j, j + 1, ... from state s. However it ends,
      every column left in either frame keeps its rows. */
  function Run(c: Call, j: nat, s: State): (r: Final)
    requires j <= |c.train|
    requires Heights(s.train, |c.yTrain|) && Heights(s.test, |c.yTest|) && Aligned(s.lists)
    ensures Heights(r.train, |c.yTrain|) && Heights(r.test, |c.yTest|)
    decreases |c.train| - j, 1
  {
    if j == |c.train| then Final(Ok, s.train, s.test)
    else RunAfter(c, j, StepAt(c, Feature(c, j), s))
  }

  /** The loop after the pass for feature j ended with `step`. */
  function RunAfter(c: Call, j: nat, step: Step): (r: Final)
    requires j < |c.train|
    requires step.Next? ==> Heights(step.state.train, |c.yTrain|) && Heights(step.state.test, |c.yTest|) && Aligned(step.state.lists)
    requires step.Raised? ==> Heights(step.train, |c.yTrain|) && Heights(step.test, |c.yTest|)
    ensures Heights(r.train, |c.yTrain|) && Heights(r.test, |c.yTest|)
    decreases |c.train| - j, 0
  {
    match step
    case Raised(o, train, test) => Final(o, train, test)
    case Next(next) => Run(c, j + 1, next)
  }

  /** A pass that goes on leaves the rest of the loop to run from its state. */
  lemma RunNext(c: Call, j: nat, s: State, next: State)
    requires j < |c.train|
    requires Heights(s.train, |c.yTrain|) && Heights(s.test, |c.yTest|) && Aligned(s.lists)
    requires StepAt(c, Feature(c, j), s) == Next(next)
    ensures Run(c, j, s) == Run(c, j + 1, next)
  {
  }

  /** A pass that raises ends the loop. */
  lemma RunRaised(c: Call, j: nat, s: State, o: Outcome, train: seq<Column>, test: seq<Column>)
    requires j < |c.train|
    requires Heights(s.train, |c.yTrain|) && Heights(s.test, |c.yTest|) && Aligned(s.lists)
    requires StepAt(c, Feature(c, j), s) == Raised(o, train, test)
    ensures Run(c, j, s) == Final(o, train, test)
  {
  }

  /** The frames as passed in and six empty lists. */
  function Start(c: Call): State
  {
    State(c.train, c.test, Lists([], [], [], [], [], []))
  }
}
