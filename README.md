# feature_target_dist — a Dafny model

`feature_target_dist(X_train, X_test, y_train, y_test, treshold, criteria)` is a
train/test drift filter for binary classification. For every column of the
train frame, in column order, it:

1. takes the 5th and 95th percentile of the feature in each split;
2. keeps the rows strictly between that split's own bounds;
3. groups the kept rows by the split's labels and takes a per-class statistic;
4. appends `[feature, per-class list]` to six accumulator lists;
5. splits those lists into two per-class columns of a table `mms`;
6. computes `100 * (train - test) / train` per class;
7. drops, in place from both frames, the features whose absolute difference
   exceeds the threshold on the chosen criterion (`Mean`, `Median` or `Std`).

This model follows the code as written:

- The "median" and "std" statistics use the same `.mean()` aggregation as the
  mean, so all three criteria compute the same value.
- Steps 5–7 run inside the loop over features. Each iteration drops `l_list`,
  the list of every feature flagged so far. pandas `drop` raises `KeyError` on
  an absent label. So a flag on any feature but the last makes the next
  iteration raise.

Modules:

- `Frames` holds named `real` columns and the `Frame` class. `Frame.Drop` is
  the in-place `drop(columns=…, inplace=True)`, which raises on a missing label.
- `Stats` covers:
  - the trim (`Kept`);
  - the per-class trimmed mean (`ClassMean`, `GroupMeans`);
  - the percentage difference, with its two IEEE outcomes: an infinity, and
    NaN from 0/0 or from a pad cell;
  - the strict threshold test.
- `Scoring` states one pass of the loop body as a function on values
  (`StepAt`). `Run` iterates it.
- `DriftFilter` is the imperative routine. `FeatureLoop` mutates two `Frame`
  objects and six accumulator sequences, and is proved equal to `Scoring.Run`.
  `FeatureTargetDist` is proved to reach the closed form.
- `ClosedForm` is that closed form:
  - `Halts(c, j)`: iteration j raises.
  - `Stop`: the first iteration that raises.
  - `Result`: the outcome.
  - `Dropped`: the columns removed from both frames.
  - `RunMatches`: the proof that the loop reaches it.
- `DriftProperties` holds what a call guarantees, stated on the closed form.
- `FixedFilter` is the evidently intended routine: one drop after the loop.
  It is proved against the as-written one and checked on a concrete example.

The outcome of a call is `Ok`, or one of three raises:

- `MissingColumn(f)`: `X_test[f]` raises `KeyError`.
- `ShapeMismatch`: lines 63-70 raise `ValueError`.
- `NotFound(labels)`: a `drop` raises `KeyError`.

The frames are mutated in place. When a call raises, the frames keep what
earlier iterations did to them, and the model states that state too.

Behaviour of the code that the model keeps as it is:

- **Statistics.** Lines 39-40 and 43-44 call `.mean()`. No median or standard
  deviation is ever computed, and the model does the same
  (`Scoring.SplitStats`).
- **When the drop happens.** Lines 84-99 are inside the `for` loop, so the
  drop runs once per feature. See Findings.
- **Unknown criterion.** Lines 100-101 only print a message. Nothing is
  dropped and the loop goes on (`DriftProperties.InvalidCriterionDropsNothing`).
- **A class absent after the trim.** Only the first feature can raise
  `ValueError` at lines 63-70. `mms` always holds row 0, and pandas sizes the
  split by the longest per-class list. A later feature with one surviving
  class has a one-element list. That value lands in slot 0 whatever its
  class, and slot 1 is NaN (`Stats.Slot`). So a class-1-only train mean is
  compared with the class-0 test mean. NaN never exceeds the threshold.
- **Zero train statistic.** Lines 75-82 divide by the train value, and IEEE
  arithmetic decides the result. A nonzero numerator over zero is infinite
  and always flags. 0/0 is NaN and never flags.

## Model

| member | source | states |
|---|---|---|
| Frames.Lookup | PycharmProjects/FeatureDist/venv/distFunction.py:33-38 | `X_train[i]` yields the values of the one column named `i` (names are distinct) |
| Frames.RemoveMembers | PycharmProjects/FeatureDist/venv/distFunction.py:88-89 | after a drop, exactly the columns whose name is not listed remain, with their values untouched |
| Frames.RemoveNames | PycharmProjects/FeatureDist/venv/distFunction.py:88-89 | a frame has column `f` after the drop iff it had it and `f` is not listed; names stay distinct |
| Frames.RemoveHeights | PycharmProjects/FeatureDist/venv/distFunction.py:88-89 | dropping columns keeps every remaining column's row count |
| Frames.RemoveSameNames | PycharmProjects/FeatureDist/venv/distFunction.py:88-89 | dropping the same list from two frames with the same column names leaves them with the same column names |
| Frames.LookupRemove | PycharmProjects/FeatureDist/venv/distFunction.py:38-88 | a column that is not dropped keeps its values, so later iterations read the original column |
| Frames.MissingMembers | PycharmProjects/FeatureDist/venv/distFunction.py:88-89 | `drop` reports as missing exactly the listed labels that name no column |
| Frames.MissingNone | PycharmProjects/FeatureDist/venv/distFunction.py:88-89 | a list whose every label names a column drops without error |
| Frames.Frame.Drop | PycharmProjects/FeatureDist/venv/distFunction.py:88 | in-place `drop`: on a missing label the frame is unchanged and the missing labels are returned; otherwise exactly the listed columns are removed; the frame stays valid |
| Stats.CountPositive | PycharmProjects/FeatureDist/venv/distFunction.py:38 | a class has a kept row iff its count among the trimmed rows is positive |
| Stats.ClassMean | PycharmProjects/FeatureDist/venv/distFunction.py:38-42 | the trimmed class mean lies strictly between the trim bounds |
| Stats.GroupMeans | PycharmProjects/FeatureDist/venv/distFunction.py:38-42 | the grouped aggregation yields at most one entry per class, so at most two |
| Stats.GroupMeansWithin | PycharmProjects/FeatureDist/venv/distFunction.py:38-42 | every per-class statistic lies strictly between the bounds |
| Stats.TrimKeepsExactly | PycharmProjects/FeatureDist/venv/distFunction.py:33-42 | rows outside the bounds have no influence: two columns that keep the same rows with the same values have the same per-class means |
| Stats.PctDiff | PycharmProjects/FeatureDist/venv/distFunction.py:75-82 | the difference is finite iff both cells are numbers and train is nonzero, and then `pct * train == 100 * (train - test)`; it is infinite iff train is 0 and test is a nonzero number |
| Stats.PctDiffInverse | PycharmProjects/FeatureDist/venv/distFunction.py:75 | the test value is recovered from the train value and the percentage |
| Stats.FlaggedTwoClasses | PycharmProjects/FeatureDist/venv/distFunction.py:86 | with two classes and nonzero train values, flagged iff abs(diff 0) > threshold or abs(diff 1) > threshold |
| Stats.EqualStatsNotFlagged | PycharmProjects/FeatureDist/venv/distFunction.py:75-86 | equal train and test statistics are never flagged at a threshold >= 0 |
| Stats.FlaggedMonotone | PycharmProjects/FeatureDist/venv/distFunction.py:86 | a larger threshold flags no more |
| Stats.ThresholdIsStrict | PycharmProjects/FeatureDist/venv/distFunction.py:86 | a difference equal to the threshold does not flag |
| Scoring.SplitStats | PycharmProjects/FeatureDist/venv/distFunction.py:38-44 | the "median" and "std" lists equal the "mean" list, each of at most two entries |
| Scoring.Width | PycharmProjects/FeatureDist/venv/distFunction.py:63-70 | the number of columns the split yields is the length of the longest per-class list |
| Scoring.Scored | PycharmProjects/FeatureDist/venv/distFunction.py:38-44 | appending one feature keeps the six lists of equal length |
| Scoring.DiffOf | PycharmProjects/FeatureDist/venv/distFunction.py:75-86 | one row of differences is flagged iff the two per-class lists are flagged |
| Scoring.DifferencesAt | PycharmProjects/FeatureDist/venv/distFunction.py:63-82 | row i of the difference columns comes from entry i of the train and test lists |
| Scoring.FlaggedFeatures | PycharmProjects/FeatureDist/venv/distFunction.py:86-87 | `l_list` holds exactly the features of the flagged rows |
| Scoring.StepAt | PycharmProjects/FeatureDist/venv/distFunction.py:33-99 | one pass of the loop body, whether it goes on or raises, keeps every column's row count; going on, it keeps the lists aligned |
| Scoring.Run | PycharmProjects/FeatureDist/venv/distFunction.py:32-103 | the loop over the remaining features; whatever outcome it reaches, every column left in either frame keeps its rows |
| Scoring.RunAfter | PycharmProjects/FeatureDist/venv/distFunction.py:32-103 | the rest of the loop after one pass: a raise ends it, otherwise the next feature runs; row counts are kept |
| Scoring.LList | PycharmProjects/FeatureDist/venv/distFunction.py:85-101 | `l_list` for `Mean`, `Median` or `Std` holds exactly the flagged features on that statistic; any other criterion gives the empty list |
| Scoring.Differences | PycharmProjects/FeatureDist/venv/distFunction.py:75-82 | one row of percentage differences per scored feature |
| Stats.Kept | PycharmProjects/FeatureDist/venv/distFunction.py:38 | a row survives the trim when its value is strictly above the lower and strictly below the upper bound |
| Stats.Slot | PycharmProjects/FeatureDist/venv/distFunction.py:63-70 | cell k of a per-class list split into columns: the k-th value, or NaN past the end of the list |
| Stats.Exceeds | PycharmProjects/FeatureDist/venv/distFunction.py:86 | `np.abs(diff) > threshold`: strict for a finite difference, always for an infinity, never for NaN |
| Stats.Flagged | PycharmProjects/FeatureDist/venv/distFunction.py:86 | a feature is flagged when either class's difference exceeds the threshold |
| Stats.LinearQuantile | PycharmProjects/FeatureDist/venv/distFunction.py:33-36 | `Series.quantile(q)` with pandas' linear interpolation, for a column in increasing order |
| Frames.Remove | PycharmProjects/FeatureDist/venv/distFunction.py:88-89 | dropping no labels leaves the frame as it is, and a drop never adds columns |
| Frames.Missing | PycharmProjects/FeatureDist/venv/distFunction.py:88-89 | `drop` reports at most as many missing labels as it was given |
| ClosedForm.Stop | PycharmProjects/FeatureDist/venv/distFunction.py:32 | the first raising iteration: every earlier one goes on, and it raises unless it is the end |
| ClosedForm.WidthAfterScoring | PycharmProjects/FeatureDist/venv/distFunction.py:63-70 | the lists split into two columns iff this is not the first iteration or the first feature has both classes on both sides |
| ClosedForm.DiffsMatchFlags | PycharmProjects/FeatureDist/venv/distFunction.py:75-86 | row i of the difference table names feature i and is flagged iff feature i is flagged |
| ClosedForm.FlaggedAtStep | PycharmProjects/FeatureDist/venv/distFunction.py:85-87 | at iteration j, `l_list` is the previous feature if flagged, then feature j if flagged |
| ClosedForm.LListAtStep | PycharmProjects/FeatureDist/venv/distFunction.py:84-101 | the same for every criterion, including an unknown one |
| ClosedForm.DropAgain | PycharmProjects/FeatureDist/venv/distFunction.py:88 | dropping the previous list again reports exactly that previously dropped feature as missing |
| ClosedForm.StepLookups | PycharmProjects/FeatureDist/venv/distFunction.py:33-38 | at iteration j, `X_train[i]` is the original column and `X_test[i]` is found iff the original test frame has it |
| ClosedForm.StepDropFails | PycharmProjects/FeatureDist/venv/distFunction.py:88 | after a flag at j - 1, iteration j raises `KeyError` for that feature, leaving both frames as they were |
| ClosedForm.StepContinues | PycharmProjects/FeatureDist/venv/distFunction.py:32-99 | an iteration that does not raise moves to the next closed-form state |
| ClosedForm.RunFrom | PycharmProjects/FeatureDist/venv/distFunction.py:32-105 | the loop run from any reachable iteration ends with the closed-form outcome and frames |
| ClosedForm.RunMatches | PycharmProjects/FeatureDist/venv/distFunction.py:21-105 | the whole loop ends with `Result` and with `Dropped` removed from both frames |
| DriftFilter.DropFlagged | PycharmProjects/FeatureDist/venv/distFunction.py:84-101 | drops `l_list` from train, then test; stops at the first `KeyError`, leaving that frame unchanged; an unknown criterion drops nothing |
| DriftFilter.FeatureLoop | PycharmProjects/FeatureDist/venv/distFunction.py:21-103 | the in-place loop ends exactly as `Scoring.Run` says, and the frames stay valid |
| DriftFilter.FeatureTargetDist | PycharmProjects/FeatureDist/venv/distFunction.py:1-105 | the outcome is `Result`, and each frame keeps exactly its original columns minus `Dropped` |
| DriftProperties.OkIff | PycharmProjects/FeatureDist/venv/distFunction.py:32-105 | the call returns iff no iteration raises |
| DriftProperties.EarlyFlagRaises | PycharmProjects/FeatureDist/venv/distFunction.py:84-89 | a flag on any feature but the last makes the next iteration raise: the call cannot return |
| DriftProperties.DroppedAtStop | PycharmProjects/FeatureDist/venv/distFunction.py:87-89 | the columns removed are the flagged feature before the first raising iteration, or nothing |
| DriftProperties.DroppedIsFlagged | PycharmProjects/FeatureDist/venv/distFunction.py:86-89 | at most one column is ever removed, and it is a flagged feature |
| DriftProperties.OkOnlyLastFlagged | PycharmProjects/FeatureDist/venv/distFunction.py:84-105 | when the call returns, no feature but the last is flagged |
| DriftProperties.OkDropsExactlyFlagged | PycharmProjects/FeatureDist/venv/distFunction.py:84-105 | when the call returns, it has removed exactly the flagged features |
| DriftProperties.InvalidCriterionDropsNothing | PycharmProjects/FeatureDist/venv/distFunction.py:100-105 | an unknown criterion removes nothing, leaves the frames as they were, and no drop raises |
| DriftProperties.StopAgree | PycharmProjects/FeatureDist/venv/distFunction.py:32 | calls whose iterations raise alike stop at the same iteration |
| DriftProperties.SameFlagsSameEnd | PycharmProjects/FeatureDist/venv/distFunction.py:84-99 | calls on the same frames with the same flags end alike |
| DriftProperties.CriteriaAgree | PycharmProjects/FeatureDist/venv/distFunction.py:38-99 | `Mean`, `Median` and `Std` give the same outcome and the same dropped columns |
| DriftProperties.FlagAtMonotone | PycharmProjects/FeatureDist/venv/distFunction.py:86-96 | raising the threshold flags no more features |
| DriftProperties.HaltsMonotone | PycharmProjects/FeatureDist/venv/distFunction.py:84-99 | raising the threshold makes no iteration raise that did not before |
| DriftProperties.ThresholdKeepsOk | PycharmProjects/FeatureDist/venv/distFunction.py:84-105 | a call that returns also returns at any larger threshold |
| DriftProperties.ThresholdMonotone | PycharmProjects/FeatureDist/venv/distFunction.py:84-105 | a call that returns removes, at a larger threshold, no column it did not remove before |
| DriftProperties.HaltsByFlag | PycharmProjects/FeatureDist/venv/distFunction.py:33-89 | changing only the threshold can change whether an iteration raises only through the previous feature's flag |
| DriftProperties.ThresholdDropsNoMore | PycharmProjects/FeatureDist/venv/distFunction.py:84-105 | whatever the outcome, a larger threshold removes no more columns |
| DriftProperties.IdenticalSplitsNeverFlag | PycharmProjects/FeatureDist/venv/distFunction.py:33-99 | identical splits remove nothing and end `Ok` or with `ValueError` |
| DriftProperties.SameColumnsAfter | PycharmProjects/FeatureDist/venv/distFunction.py:88-89 | frames with the same column names still have the same column names afterwards |
| DriftProperties.SplitStatsWithin | PycharmProjects/FeatureDist/venv/distFunction.py:33-44 | each per-class statistic lies strictly between its own split's 5th and 95th percentile |
| DriftProperties.ListsAppendOnly | PycharmProjects/FeatureDist/venv/distFunction.py:21-40 | the three train accumulator lists only grow, one entry per feature, in the train frame's column order |
| DriftProperties.TestListsAppendOnly | PycharmProjects/FeatureDist/venv/distFunction.py:21-44 | the three test accumulator lists likewise only grow, in the train frame's column order |
| FixedFilter.FixedRun | PycharmProjects/FeatureDist/venv/distFunction.py:32-105 | the corrected routine: the first missing test column raises `KeyError`, lists that do not split into two columns raise `ValueError`, else the flagged features are dropped once from both frames |
| FixedFilter.FirstMissing | PycharmProjects/FeatureDist/venv/distFunction.py:35 | the first feature the test frame lacks, with every earlier one present |
| FixedFilter.FixedDropIsFlagged | PycharmProjects/FeatureDist/venv/distFunction.py:84-87 | the drop list built once over all rows holds exactly the flagged features |
| FixedFilter.FixedDropSucceeds | PycharmProjects/FeatureDist/venv/distFunction.py:88-89 | that list names only columns both frames have, so neither drop raises |
| FixedFilter.FixedDropsExactlyFlagged | PycharmProjects/FeatureDist/venv/distFunction.py:84-89 | when the corrected call returns, each frame keeps exactly its columns that are not flagged features |
| FixedFilter.FixedThresholdMonotone | PycharmProjects/FeatureDist/venv/distFunction.py:86-89 | a larger threshold makes the corrected call drop no more features |
| FixedFilter.OkCovered | PycharmProjects/FeatureDist/venv/distFunction.py:35 | a call that returns had every feature in its test frame |
| FixedFilter.OkFixedDrop | PycharmProjects/FeatureDist/venv/distFunction.py:84-89 | a call that returns drops, as written, what the corrected call drops |
| FixedFilter.FixedAgreesWhenOk | PycharmProjects/FeatureDist/venv/distFunction.py:32-105 | where the code as written returns, the corrected call returns the same frames |
| FixedFilter.AsWrittenRaisesOnEarlyFlag | PycharmProjects/FeatureDist/venv/distFunction.py:84-89 | an early flag makes the as-written call raise, while the corrected call drops that feature |
| FixedFilter.FourRowQuantiles | PycharmProjects/FeatureDist/venv/distFunction.py:33-36 | pandas' 5th and 95th percentiles of a strictly increasing four-row column lie between rows 0 and 1 and between rows 2 and 3 |
| FixedFilter.FourRowMeans | PycharmProjects/FeatureDist/venv/distFunction.py:33-44 | such a column labelled `[0, 0, 1, 1]` keeps rows 1 and 2, so the per-class means are those two values |
| FixedFilter.ExampleStats | PycharmProjects/FeatureDist/venv/distFunction.py:33-44 | the per-class means of the example under pandas' quantile: train `a` and both `b` give `[2, 3]`, test `a` gives `[4, 6]` |
| FixedFilter.ExampleFlags | PycharmProjects/FeatureDist/venv/distFunction.py:75-86 | in the example, feature `a` (both class means double, a 100% difference) is flagged at threshold 10 and `b` is not |
| FixedFilter.ExampleAsWritten | PycharmProjects/FeatureDist/venv/distFunction.py:84-89 | on the example, the code as written drops `a` and then raises `KeyError` for `a` |
| FixedFilter.ExampleFixed | PycharmProjects/FeatureDist/venv/distFunction.py:84-105 | on the example, the corrected call returns both frames with only `b` |
| FixedFilter.DriftPairStats | PycharmProjects/FeatureDist/venv/distFunction.py:33-44 | the per-class means of the second example under pandas' quantile: train `[2, 3]` for both features, test `[3, 4.5]` for `a` and `[4, 6]` for `b` |
| FixedFilter.DriftPairFlags | PycharmProjects/FeatureDist/venv/distFunction.py:75-96 | in a second example, `a` (50% drift) is flagged exactly below threshold 50 and `b` (100%) exactly below 100 |
| FixedFilter.ThresholdSubsetNeedsOk | PycharmProjects/FeatureDist/venv/distFunction.py:84-105 | at threshold 10 that call removes `a` and raises; at 60 it returns having removed `b`: for a call that raises, a larger threshold can remove a different column |

## Left out

- Quantile interpolation: `Series.quantile` is a parameter `quantile(values, q)`, and every general result holds for any quantile function. `Stats.LinearQuantile` is pandas' default interpolation for a column already in increasing order; the examples use it on such columns. Sorting an unsorted column first is not modelled.
- Floating point: values are `real`. Rounding is not modelled. Only the infinity and the NaN that the percentage formula can produce are modelled.
- The `print` at line 101: output is not modelled. Only the fact that nothing is dropped is.
- `mms` bookkeeping: building `mms` and its helper frames (lines 46-72), `del` (line 61) and the bare `mms` (line 103) are not modelled as data frames. The difference rows are computed directly from the accumulator lists. The same split into two NaN-padded columns, and the same `ValueError`, are kept.
- Index alignment: `groupby(y_train)` aligns labels by pandas index. The model takes labels as row-aligned with their frame.
- Labels are 0 or 1 (`Stats.Label`). Other label values are not modelled.
- Frames with duplicate column names, and a call that passes the same frame object as both `X_train` and `X_test`, are excluded by preconditions.
- Non-numeric columns are not modelled.
- The row order and index of a frame are not modelled beyond its columns' value sequences. `drop` never changes either.
- Correct median and standard deviation aggregations are not modelled. The code computes neither; it computes the mean three times.
- `Stats.GroupMeans`: states only that there are at most two entries. The entry for each class is stated by `Stats.ClassMean` and `Stats.GroupMeansWithin`.
- `Scoring.StepAt`: its own contract states only that row counts and list alignment are kept. What one pass computes is stated by the `ClosedForm` step lemmas (`StepLookups`, `StepDropFails`, `StepContinues`).
- DriftProperties.ThresholdMonotone: the subset form ("no column it did not remove before") is proved only for calls that return. It is false for calls that raise (`FixedFilter.ThresholdSubsetNeedsOk`). For every call, only the count form is proved (`DriftProperties.ThresholdDropsNoMore`).
- Frames.Remove: its own contract states only that no column is added and that an empty list changes nothing. Which columns remain is stated by `Frames.RemoveMembers` and `Frames.RemoveNames`.
- Frames.Missing: its own contract states only a bound on its length. Which labels it reports is stated by `Frames.MissingMembers`.
- Scoring.Differences: its own contract states only its length. Row i is stated by `Scoring.DifferencesAt`.
- `FixedFilter.FixedRun` on an empty train frame returns both frames unchanged. This matches the code as written, whose loop does not run.

## Findings

| source | as written | input that shows it | evidently intended | confidence | as-written member | corrected member |
|---|---|---|---|---|---|---|
| PycharmProjects/FeatureDist/venv/distFunction.py:84-99 | the drop of `l_list` is indented inside the `for` loop of line 32. `l_list` lists every feature flagged so far. A feature flagged at iteration j is dropped there, listed again at j + 1, and `drop` raises `KeyError` | train `a = b = [1, 2, 3, 4]`; test `a = [2, 4, 6, 8]`, `b = [1, 2, 3, 4]`; labels `[0, 0, 1, 1]` on both sides; threshold 10; criterion `Mean`; pandas' linear quantile. The trim keeps rows 1 and 2, so `a`'s class means go from `[2, 3]` to `[4, 6]` (-100%). `a` is flagged and dropped; the second iteration raises `KeyError: ['a']` | score every feature, then drop the flagged ones from both frames once (as the docstring and the `return` describe). The example then returns both frames with only `b` | not executed | DriftProperties.EarlyFlagRaises, FixedFilter.ExampleAsWritten | FixedFilter.FixedDropsExactlyFlagged, FixedFilter.ExampleFixed |

`DriftFilter` models the code as written. The corrected routine is
`FixedFilter.FixedRun`. `FixedFilter.FixedAgreesWhenOk` proves that the two
agree whenever the code as written returns.
