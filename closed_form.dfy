/** The outcome of a call of `feature_target_dist` in closed form, and the
    proof that the loop of `Scoring.Run` reaches it.

    Feature j is flagged when its train and test statistics differ by more
    than the threshold on the chosen criterion. Iteration j raises when the
    test frame lacks the feature, when it is the first iteration and some
    per-class list does not have two entries, or when feature j - 1 was
    flagged: its column was dropped at iteration j - 1 and `l_list` names it
    again. So the call stops at the first such iteration, and it has dropped
    at most one column: the flagged feature just before it. */
module ClosedForm {
  import opened Frames
  import opened Stats
  import opened Scoring

  /** What the frames passed in satisfy: distinct column names and columns
      as long as the label sequences. */
  predicate WellFormed(c: Call)
  {
    DistinctNames(c.train) && DistinctNames(c.test) && Heights(c.train, |c.yTrain|) && Heights(c.test, |c.yTest|)
  }

  function TrainStats(c: Call, j: nat): ClassStats
    requires WellFormed(c) && j < |c.train|
  {
    SplitStats(c.train[j].values, c.yTrain, c.quantile)
  }

  function TestStats(c: Call, j: nat): ClassStats
    requires WellFormed(c) && j < |c.train| && HasColumn(c.test, Feature(c, j))
  {
    var col := Lookup(c.test, Feature(c, j));
    assert |col| == |c.yTest| by {
      var i := IndexOf(c.test, Feature(c, j));
    }
    SplitStats(col, c.yTest, c.quantile)
  }

  /** Feature j is flagged on the chosen criterion (never when the criterion
      is not one of the three). */
  predicate FlagAt(c: Call, j: nat)
    requires WellFormed(c) && j < |c.train|
  {
    && HasColumn(c.test, Feature(c, j))
    && match ParseCriterion(c.criteria)
       case None => false
       case Some(crit) => Flagged(Statistic(TrainStats(c, j), crit), Statistic(TestStats(c, j), crit), c.threshold)
  }

  predicate Full(s: ClassStats)
  {
    |s.mean| == 2 && |s.median| == 2 && |s.std| == 2
  }

  /** Iteration j raises: the test frame lacks the feature; or it is the
      first iteration and some per-class list of the one row of `mms` does
      not split into two columns; or the previous feature was flagged and
      dropped, so dropping `l_list` again names an absent column. */
  predicate Halts(c: Call, j: nat)
    requires WellFormed(c) && j < |c.train|
  {
    || !HasColumn(c.test, Feature(c, j))
    || (j == 0 && !(Full(TrainStats(c, 0)) && Full(TestStats(c, 0))))
    || (j > 0 && FlagAt(c, j - 1))
  }

  /** The first iteration from j on that raises, or the number of features. */
  function Stop(c: Call, j: nat): (h: nat)
    requires WellFormed(c) && j <= |c.train|
    ensures j <= h <= |c.train|
    ensures h < |c.train| ==> Halts(c, h)
    ensures forall i :: j <= i < h ==> !Halts(c, i)
    decreases |c.train| - j
  {
    if j == |c.train| then j
    else if Halts(c, j) then j
    else Stop(c, j + 1)
  }

  /** The columns removed from both frames before iteration j runs. */
  function DroppedBefore(c: Call, j: nat): seq<string>
    requires WellFormed(c) && j <= |c.train|
  {
    if j > 0 && FlagAt(c, j - 1) then [Feature(c, j - 1)] else []
  }

  /** The columns the call removes from both frames, whether it returns or raises. */
  function Dropped(c: Call): seq<string>
    requires WellFormed(c)
  {
    DroppedBefore(c, Stop(c, 0))
  }

  function Result(c: Call): Outcome
    requires WellFormed(c)
  {
    var h := Stop(c, 0);
    if h == |c.train| then Ok
    else if !HasColumn(c.test, Feature(c, h)) then MissingColumn(Feature(c, h))
    else if h == 0 then ShapeMismatch
    else NotFound([Feature(c, h - 1)])
  }

  lemma {:induction false} FlaggedFeaturesNone(rows: seq<DiffRow>, threshold: real)
    requires forall i :: 0 <= i < |rows| ==> !RowFlagged(rows[i], threshold)
    ensures FlaggedFeatures(rows, threshold) == []
  {
    if rows != [] {
      var last := |rows| - 1;
      assert forall i :: 0 <= i < last ==> rows[..last][i] == rows[i];
      FlaggedFeaturesNone(rows[..last], threshold);
    }
  }

  /** When only the last two rows can be flagged, `l_list` holds exactly those. */
  lemma FlaggedFeaturesLastTwo(rows: seq<DiffRow>, threshold: real)
    requires |rows| >= 1
    requires forall i :: 0 <= i < |rows| - 2 ==> !RowFlagged(rows[i], threshold)
    ensures var n := |rows|;
      FlaggedFeatures(rows, threshold) ==
        (if n >= 2 && RowFlagged(rows[n - 2], threshold) then [rows[n - 2].feature] else [])
        + (if RowFlagged(rows[n - 1], threshold) then [rows[n - 1].feature] else [])
  {
    var n := |rows|;
    var front := rows[..n - 1];
    assert forall i :: 0 <= i < n - 1 ==> front[i] == rows[i];
    if n >= 2 {
      var front2 := front[..n - 2];
      assert forall i :: 0 <= i < n - 2 ==> front2[i] == rows[i];
      FlaggedFeaturesNone(front2, threshold);
    } else {
      FlaggedFeaturesNone(front, threshold);
    }
  }

  lemma WidthOfScored(rows: seq<Entry>)
    requires |rows| >= 1
    requires forall i :: 0 <= i < |rows| ==> |rows[i].perClass| <= 2
    ensures |rows| == 1 ==> Width(rows) == |rows[0].perClass|
    ensures |rows[0].perClass| == 2 ==> Width(rows) == 2
  {
  }

  /** The entry feature i adds to the train accumulator lists; all three
      statistics are the same list. */
  function TrainEntry(c: Call, i: nat): Entry
    requires WellFormed(c) && i < |c.train|
  {
    Entry(Feature(c, i), TrainStats(c, i).mean)
  }

  /** The first j entries of each train accumulator list. */
  function TrainRows(c: Call, j: nat): (rows: seq<Entry>)
    requires WellFormed(c) && j <= |c.train|
    ensures |rows| == j
  {
    if j == 0 then [] else TrainRows(c, j - 1) + [TrainEntry(c, j - 1)]
  }

  lemma {:induction false} TrainRowsAt(c: Call, j: nat)
    requires WellFormed(c) && j <= |c.train|
    ensures forall i :: 0 <= i < j ==> TrainRows(c, j)[i] == TrainEntry(c, i)
  {
    if j > 0 {
      TrainRowsAt(c, j - 1);
      var prev, e := TrainRows(c, j - 1), TrainEntry(c, j - 1);
      assert TrainRows(c, j) == prev + [e];
      forall i | 0 <= i < j ensures TrainRows(c, j)[i] == TrainEntry(c, i) {
        if i < j - 1 {
          assert (prev + [e])[i] == prev[i];
        }
      }
    }
  }

  function TestEntry(c: Call, i: nat): Entry
    requires WellFormed(c) && i < |c.train| && HasColumn(c.test, Feature(c, i))
  {
    Entry(Feature(c, i), TestStats(c, i).mean)
  }

  /** The first j entries of each test accumulator list. */
  function TestRows(c: Call, j: nat): (rows: seq<Entry>)
    requires WellFormed(c) && j <= |c.train|
    requires forall i :: 0 <= i < j ==> HasColumn(c.test, Feature(c, i))
    ensures |rows| == j
  {
    if j == 0 then [] else TestRows(c, j - 1) + [TestEntry(c, j - 1)]
  }

  lemma {:induction false} TestRowsAt(c: Call, j: nat)
    requires WellFormed(c) && j <= |c.train|
    requires forall i :: 0 <= i < j ==> HasColumn(c.test, Feature(c, i))
    ensures forall i :: 0 <= i < j ==> TestRows(c, j)[i] == TestEntry(c, i)
  {
    if j > 0 {
      TestRowsAt(c, j - 1);
      var prev, e := TestRows(c, j - 1), TestEntry(c, j - 1);
      assert TestRows(c, j) == prev + [e];
      forall i | 0 <= i < j ensures TestRows(c, j)[i] == TestEntry(c, i) {
        if i < j - 1 {
          assert (prev + [e])[i] == prev[i];
        }
      }
    }
  }

  /** Appending feature j's entry extends the train rows by one. */
  lemma TrainRowsNext(c: Call, j: nat, rows: seq<Entry>, s: ClassStats)
    requires WellFormed(c) && j < |c.train|
    requires rows == TrainRows(c, j) && s == TrainStats(c, j)
    ensures rows + [Entry(Feature(c, j), s.mean)] == TrainRows(c, j + 1)
  {
  }

  /** Appending feature j's entry extends the test rows by one. */
  lemma TestRowsNext(c: Call, j: nat, rows: seq<Entry>, s: ClassStats)
    requires WellFormed(c) && j < |c.train|
    requires forall i :: 0 <= i <= j ==> HasColumn(c.test, Feature(c, i))
    requires rows == TestRows(c, j) && s == TestStats(c, j)
    ensures rows + [Entry(Feature(c, j), s.mean)] == TestRows(c, j + 1)
  {
  }

  /** After iteration j has scored its feature, the lists split into two
      columns exactly when this is not the first iteration or the first
      feature has both classes on both sides. */
  lemma WidthAfterScoring(c: Call, j: nat)
    requires WellFormed(c) && j < |c.train|
    requires forall i :: 0 <= i <= j ==> HasColumn(c.test, Feature(c, i))
    requires j > 0 ==> !Halts(c, 0)
    ensures (Width(TrainRows(c, j + 1)) == 2 && Width(TestRows(c, j + 1)) == 2) <==> (j > 0 || !Halts(c, 0))
  {
    var tr, te := TrainRows(c, j + 1), TestRows(c, j + 1);
    TrainRowsAt(c, j + 1);
    TestRowsAt(c, j + 1);
    WidthOfScored(tr);
    WidthOfScored(te);
  }

  /** The difference row of feature i is flagged exactly when feature i is. */
  lemma EntryFlag(c: Call, i: nat)
    requires WellFormed(c) && i < |c.train|
    requires ParseCriterion(c.criteria).Some?
    requires HasColumn(c.test, Feature(c, i))
    ensures RowFlagged(DiffOf(TrainEntry(c, i), TestEntry(c, i)), c.threshold) <==> FlagAt(c, i)
  {
    var crit := ParseCriterion(c.criteria).value;
    assert Statistic(TrainStats(c, i), crit) == TrainStats(c, i).mean;
    assert Statistic(TestStats(c, i), crit) == TestStats(c, i).mean;
  }

  /** Row i of the difference table of iteration j is flagged exactly when
      feature i is. */
  lemma DiffsMatchFlags(c: Call, j: nat)
    requires WellFormed(c) && j < |c.train|
    requires ParseCriterion(c.criteria).Some?
    requires forall i :: 0 <= i <= j ==> HasColumn(c.test, Feature(c, i))
    ensures var diffs := Differences(TrainRows(c, j + 1), TestRows(c, j + 1));
      && |diffs| == j + 1
      && forall i :: 0 <= i <= j ==> diffs[i].feature == Feature(c, i) && (RowFlagged(diffs[i], c.threshold) <==> FlagAt(c, i))
  {
    var tr, te := TrainRows(c, j + 1), TestRows(c, j + 1);
    TrainRowsAt(c, j + 1);
    TestRowsAt(c, j + 1);
    DifferencesAt(tr, te);
    var diffs := Differences(tr, te);
    forall i | 0 <= i <= j ensures diffs[i].feature == Feature(c, i) && (RowFlagged(diffs[i], c.threshold) <==> FlagAt(c, i)) {
      assert diffs[i] == DiffOf(tr[i], te[i]);
      assert tr[i] == TrainEntry(c, i) && te[i] == TestEntry(c, i);
      EntryFlag(c, i);
    }
  }

  /** No row before the last two of iteration j's difference table is
      flagged: an earlier flag would have stopped the loop. */
  lemma EarlierRowsUnflagged(c: Call, j: nat)
    requires WellFormed(c) && j < |c.train|
    requires ParseCriterion(c.criteria).Some?
    requires forall i :: 0 <= i < j ==> !Halts(c, i)
    requires forall i :: 0 <= i <= j ==> HasColumn(c.test, Feature(c, i))
    ensures var diffs := Differences(TrainRows(c, j + 1), TestRows(c, j + 1));
      forall i :: 0 <= i < |diffs| - 2 ==> !RowFlagged(diffs[i], c.threshold)
  {
    var diffs := Differences(TrainRows(c, j + 1), TestRows(c, j + 1));
    DiffsMatchFlags(c, j);
    forall i | 0 <= i < |diffs| - 2 ensures !RowFlagged(diffs[i], c.threshold) {
      assert !Halts(c, i + 1);
    }
  }

  /** The `l_list` of iteration j: the previous feature if it was flagged,
      then the current one if it is. */
  lemma FlaggedAtStep(c: Call, j: nat)
    requires WellFormed(c) && j < |c.train|
    requires ParseCriterion(c.criteria).Some?
    requires forall i :: 0 <= i < j ==> !Halts(c, i)
    requires forall i :: 0 <= i <= j ==> HasColumn(c.test, Feature(c, i))
    ensures FlaggedFeatures(Differences(TrainRows(c, j + 1), TestRows(c, j + 1)), c.threshold)
      == DroppedBefore(c, j) + (if FlagAt(c, j) then [Feature(c, j)] else [])
  {
    var diffs := Differences(TrainRows(c, j + 1), TestRows(c, j + 1));
    DiffsMatchFlags(c, j);
    EarlierRowsUnflagged(c, j);
    FlaggedFeaturesLastTwo(diffs, c.threshold);
  }

  /** Whatever the criterion, the list iteration j drops is the previous
      feature if it was flagged, then the current one if it is. */
  lemma LListAtStep(c: Call, j: nat)
    requires WellFormed(c) && j < |c.train|
    requires forall i :: 0 <= i < j ==> !Halts(c, i)
    requires forall i :: 0 <= i <= j ==> HasColumn(c.test, Feature(c, i))
    ensures var d := Differences(TrainRows(c, j + 1), TestRows(c, j + 1));
      LList(c.criteria, d, d, d, c.threshold) == DroppedBefore(c, j) + (if FlagAt(c, j) then [Feature(c, j)] else [])
  {
    if ParseCriterion(c.criteria).Some? {
      FlaggedAtStep(c, j);
    }
  }

  /** Dropping `before + extra` from a frame that already lost `before`
      (at most one name, not the current feature `f`) fails on exactly
      `before`. */
  lemma DropAgain(t: seq<Column>, before: seq<string>, f: string, flagged: bool)
    requires HasColumn(t, f) && f !in before && |before| <= 1
    ensures Missing(Remove(t, before), before + (if flagged then [f] else [])) == before
  {
    var r := Remove(t, before);
    var extra := if flagged then [f] else [];
    RemoveNames(t, before);
    assert Missing(r, extra) == [] by {
      if flagged {
        assert extra[1..] == [];
      }
    }
    if before != [] {
      assert (before + extra)[1..] == extra;
    }
  }

  /** The call ends at iteration j when j is the first iteration that raises. */
  lemma HaltAt(c: Call, j: nat)
    requires WellFormed(c) && j < |c.train|
    requires forall i :: 0 <= i < j ==> !Halts(c, i)
    requires Halts(c, j)
    ensures Stop(c, 0) == j
    ensures Dropped(c) == DroppedBefore(c, j)
  {
  }

  /** The call returns when no iteration raises. */
  lemma RunsThrough(c: Call)
    requires WellFormed(c)
    requires forall i :: 0 <= i < |c.train| ==> !Halts(c, i)
    ensures Stop(c, 0) == |c.train| && Result(c) == Ok
    ensures Dropped(c) == DroppedBefore(c, |c.train|)
  {
  }

  /** The six lists after the first j features: the median and std lists
      are the mean lists. */
  function ListsAt(c: Call, j: nat): (l: Lists)
    requires WellFormed(c) && j <= |c.train|
    requires forall i :: 0 <= i < j ==> HasColumn(c.test, Feature(c, i))
    ensures Aligned(l)
  {
    Lists(TrainRows(c, j), TrainRows(c, j), TrainRows(c, j), TestRows(c, j), TestRows(c, j), TestRows(c, j))
  }

  /** The state of the loop before iteration j, when no earlier iteration raised. */
  function StateAt(c: Call, j: nat): (s: State)
    requires WellFormed(c) && j <= |c.train|
    requires forall i :: 0 <= i < j ==> !Halts(c, i)
    ensures Heights(s.train, |c.yTrain|) && Heights(s.test, |c.yTest|) && Aligned(s.lists)
  {
    RemoveHeights(c.train, DroppedBefore(c, j), |c.yTrain|);
    RemoveHeights(c.test, DroppedBefore(c, j), |c.yTest|);
    assert forall i :: 0 <= i < j ==> HasColumn(c.test, Feature(c, i)) by {
      forall i | 0 <= i < j ensures HasColumn(c.test, Feature(c, i)) {
        assert !Halts(c, i);
      }
    }
    State(Remove(c.train, DroppedBefore(c, j)), Remove(c.test, DroppedBefore(c, j)), ListsAt(c, j))
  }

  /** `X_train[i]` finds the feature's own column; `X_test[i]` finds the test
      frame's column of that name, when it has one. */
  lemma StepLookups(c: Call, j: nat)
    requires WellFormed(c) && j < |c.train|
    requires forall i :: 0 <= i < j ==> !Halts(c, i)
    ensures var s, f := StateAt(c, j), Feature(c, j);
      && HasColumn(s.train, f) && Lookup(s.train, f) == c.train[j].values
      && (HasColumn(s.test, f) <==> HasColumn(c.test, f))
      && (HasColumn(c.test, f) ==> Lookup(s.test, f) == Lookup(c.test, f))
  {
    var f, before := Feature(c, j), DroppedBefore(c, j);
    assert f !in before;
    RemoveNames(c.train, before);
    RemoveNames(c.test, before);
    assert HasColumn(c.train, f);
    LookupRemove(c.train, before, f);
    if HasColumn(c.test, f) {
      LookupRemove(c.test, before, f);
    }
  }

  /** Scoring feature j extends the six lists by its entries. */
  lemma StepScores(c: Call, j: nat)
    requires WellFormed(c) && j < |c.train|
    requires forall i :: 0 <= i <= j ==> HasColumn(c.test, Feature(c, i))
    ensures Scored(Feature(c, j), TrainStats(c, j), TestStats(c, j), ListsAt(c, j)) == ListsAt(c, j + 1)
  {
    TrainRowsNext(c, j, TrainRows(c, j), TrainStats(c, j));
    TestRowsNext(c, j, TestRows(c, j), TestStats(c, j));
  }

  /** The test frame has every feature up to j when it has feature j and
      no earlier iteration raised. */
  lemma TestColumnsUpTo(c: Call, j: nat)
    requires WellFormed(c) && j < |c.train|
    requires forall i :: 0 <= i < j ==> !Halts(c, i)
    requires HasColumn(c.test, Feature(c, j))
    ensures forall i :: 0 <= i <= j ==> HasColumn(c.test, Feature(c, i))
  {
    forall i | 0 <= i <= j ensures HasColumn(c.test, Feature(c, i)) {
      if i < j {
        assert !Halts(c, i);
      }
    }
  }

  /** Iteration j raises `KeyError` on `X_test[i]` when the test frame lacks the feature. */
  lemma StepMissingColumn(c: Call, j: nat)
    requires WellFormed(c) && j < |c.train|
    requires forall i :: 0 <= i < j ==> !Halts(c, i)
    requires !HasColumn(c.test, Feature(c, j))
    ensures StepAt(c, Feature(c, j), StateAt(c, j)) ==
      Raised(Result(c), Remove(c.train, Dropped(c)), Remove(c.test, Dropped(c)))
  {
    StepLookups(c, j);
    HaltAt(c, j);
  }

  /** The first iteration raises `ValueError` when a per-class list of the
      first feature does not have two entries. */
  lemma StepShapeMismatch(c: Call)
    requires WellFormed(c) && 0 < |c.train|
    requires HasColumn(c.test, Feature(c, 0))
    requires !(Full(TrainStats(c, 0)) && Full(TestStats(c, 0)))
    ensures StepAt(c, Feature(c, 0), StateAt(c, 0)) ==
      Raised(Result(c), Remove(c.train, Dropped(c)), Remove(c.test, Dropped(c)))
  {
    StepLookups(c, 0);
    TestColumnsUpTo(c, 0);
    StepScores(c, 0);
    WidthAfterScoring(c, 0);
    HaltAt(c, 0);
  }

  /** When feature j - 1 was flagged, the lists of iteration j split into
      two columns and the train drop misses exactly feature j - 1. */
  lemma DropFailsOn(c: Call, j: nat)
    requires WellFormed(c) && 0 < j < |c.train|
    requires forall i :: 0 <= i < j ==> !Halts(c, i)
    requires HasColumn(c.test, Feature(c, j))
    requires FlagAt(c, j - 1)
    ensures forall i :: 0 <= i <= j ==> HasColumn(c.test, Feature(c, i))
    ensures SplitsIntoTwo(ListsAt(c, j + 1))
    ensures Missing(StateAt(c, j).train, Dropping(c, ListsAt(c, j + 1))) == [Feature(c, j - 1)]
  {
    var s, f, before := StateAt(c, j), Feature(c, j), DroppedBefore(c, j);
    assert before == [Feature(c, j - 1)];
    assert Feature(c, j - 1) != f;
    TestColumnsUpTo(c, j);
    var l := ListsAt(c, j + 1);
    WidthAfterScoring(c, j);
    LListAtStep(c, j);
    DropAgain(c.train, before, f, FlagAt(c, j));
  }

  /** Iteration j raises `KeyError` on the train drop when feature j - 1
      was flagged, and so already dropped; the frames are left as they were. */
  lemma StepDropFails(c: Call, j: nat)
    requires WellFormed(c) && 0 < j < |c.train|
    requires forall i :: 0 <= i < j ==> !Halts(c, i)
    requires HasColumn(c.test, Feature(c, j))
    requires FlagAt(c, j - 1)
    ensures var s := StateAt(c, j);
      StepAt(c, Feature(c, j), s) == Raised(NotFound([Feature(c, j - 1)]), s.train, s.test)
  {
    var s, f := StateAt(c, j), Feature(c, j);
    StepLookups(c, j);
    DropFailsOn(c, j);
    StepScores(c, j);
    assert SplitStats(Lookup(s.train, f), c.yTrain, c.quantile) == TrainStats(c, j);
    assert SplitStats(Lookup(s.test, f), c.yTest, c.quantile) == TestStats(c, j);
    assert s.lists == ListsAt(c, j);
  }

  /** A call whose first raising iteration is a failed drop ends with
      `NotFound` and the frames of that iteration. */
  lemma DropFailsResult(c: Call, j: nat)
    requires WellFormed(c) && 0 < j < |c.train|
    requires forall i :: 0 <= i < j ==> !Halts(c, i)
    requires HasColumn(c.test, Feature(c, j))
    requires FlagAt(c, j - 1)
    ensures var s := StateAt(c, j);
      Final(NotFound([Feature(c, j - 1)]), s.train, s.test) ==
      Final(Result(c), Remove(c.train, Dropped(c)), Remove(c.test, Dropped(c)))
  {
    HaltAt(c, j);
  }

  /** Iteration j that does not raise reaches the state before j + 1. */
  lemma StepContinues(c: Call, j: nat)
    requires WellFormed(c) && j < |c.train|
    requires forall i :: 0 <= i < j ==> !Halts(c, i)
    requires !Halts(c, j)
    ensures forall i :: 0 <= i < j + 1 ==> !Halts(c, i)
    ensures StepAt(c, Feature(c, j), StateAt(c, j)) == Next(StateAt(c, j + 1))
  {
    var s, f := StateAt(c, j), Feature(c, j);
    var after := DroppedBefore(c, j + 1);
    assert DroppedBefore(c, j) == [];
    assert s.train == c.train && s.test == c.test;
    StepLookups(c, j);
    TestColumnsUpTo(c, j);
    StepScores(c, j);
    var l := ListsAt(c, j + 1);
    WidthAfterScoring(c, j);
    assert SplitsIntoTwo(l);
    LListAtStep(c, j);
    assert Dropping(c, l) == after;
    DropAgain(c.train, [], f, FlagAt(c, j));
    DropAgain(c.test, [], f, FlagAt(c, j));
    assert Missing(s.train, after) == [] && Missing(s.test, after) == [];
  }

  /** The first iteration that raises ends the loop with the call's
      outcome and final frames. */
  lemma RunRaisesAt(c: Call, j: nat)
    requires WellFormed(c) && j < |c.train|
    requires forall i :: 0 <= i < j ==> !Halts(c, i)
    requires Halts(c, j)
    ensures Run(c, j, StateAt(c, j)) == Final(Result(c), Remove(c.train, Dropped(c)), Remove(c.test, Dropped(c)))
  {
    var s := StateAt(c, j);
    if !HasColumn(c.test, Feature(c, j)) {
      StepMissingColumn(c, j);
    } else if j == 0 {
      StepShapeMismatch(c);
    } else {
      StepDropFails(c, j);
      DropFailsResult(c, j);
    }
    RunRaised(c, j, s, Result(c), Remove(c.train, Dropped(c)), Remove(c.test, Dropped(c)));
  }

  /** An iteration that does not raise leaves the rest of the loop to run
      from the state before the next one. */
  lemma RunContinues(c: Call, j: nat)
    requires WellFormed(c) && j < |c.train|
    requires forall i :: 0 <= i < j ==> !Halts(c, i)
    requires !Halts(c, j)
    ensures forall i :: 0 <= i < j + 1 ==> !Halts(c, i)
    ensures Run(c, j, StateAt(c, j)) == Run(c, j + 1, StateAt(c, j + 1))
  {
    StepContinues(c, j);
    RunNext(c, j, StateAt(c, j), StateAt(c, j + 1));
  }

  /** After the last feature the loop returns with the frames it has. */
  lemma RunEnds(c: Call)
    requires WellFormed(c)
    requires forall i :: 0 <= i < |c.train| ==> !Halts(c, i)
    ensures Run(c, |c.train|, StateAt(c, |c.train|)) ==
      Final(Result(c), Remove(c.train, Dropped(c)), Remove(c.test, Dropped(c)))
  {
    RunsThrough(c);
  }

  /** The loop from iteration j on, when no earlier iteration raised. */
  lemma {:induction false} RunFrom(c: Call, j: nat)
    requires WellFormed(c) && j <= |c.train|
    requires forall i :: 0 <= i < j ==> !Halts(c, i)
    ensures Run(c, j, StateAt(c, j)) == Final(Result(c), Remove(c.train, Dropped(c)), Remove(c.test, Dropped(c)))
    decreases |c.train| - j
  {
    var fin := Final(Result(c), Remove(c.train, Dropped(c)), Remove(c.test, Dropped(c)));
    if j == |c.train| {
      RunEnds(c);
    } else if Halts(c, j) {
      RunRaisesAt(c, j);
    } else {
      assert Run(c, j, StateAt(c, j)) == fin by {
        RunContinues(c, j);
        RunFrom(c, j + 1);
      }
    }
  }

  /** The whole loop ends with the closed-form outcome, and both frames have
      lost exactly the closed-form dropped columns. */
  lemma RunMatches(c: Call)
    requires WellFormed(c)
    ensures Run(c, 0, Start(c)) == Final(Result(c), Remove(c.train, Dropped(c)), Remove(c.test, Dropped(c)))
  {
    RunFrom(c, 0);
    assert StateAt(c, 0) == Start(c);
  }
}
