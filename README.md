# Decision-tree evaluation, modelled in Dafny

This project models the evaluation half of a decision-tree room classifier. The source is
`evaluate.py`. A data set is a list of rows. Each row holds WiFi signal strengths followed by
the room (1–4) it was measured in. The module:

- routes a row down a trained tree to a predicted room (`predict`);
- counts actual against predicted rooms in a 4×4 confusion matrix (`get_confusion_matrix`);
- derives one-vs-rest counts for a room (`get_tp_fp_tn_fn`) and from them precision, recall,
  F1 and accuracy;
- reports the overall accuracy of a tree on a test set (`evaluate`);
- cuts the data into a test window and a training set (`separate_data`);
- runs a fold loop per room (`cross_validation`). The loop trains a tree on each training set
  and sums the fold metrics, the fold matrices and the deepest tree. It then reports each
  total divided by ten.

Modules, one file each:

- `Wrappers`: `Option` and `Result`.
- `Sums`: sums over sequences.
- `DecisionTree`: the tree, `Predict`, and an independent reading of a tree as disjoint regions.
- `Confusion`: the confusion matrix and `Evaluate`.
- `Metrics`: the counts and the four ratios.
- `Folds`: `SeparateData` and the fold windows.
- `CrossValidation`: the fold loop.

Python's `None` results become `Option`. An uncaught `TypeError` or `ValueError` becomes
`Result.TypeError` or `Result.ValueError`.
Integer counts are `nat`. Float ratios are exact `real`s.

The code's own structure says what was evidently meant in two places where it does
something else. The model follows what the code does:

- **Undefined metrics stop the run.** Each metric function catches `ZeroDivisionError`,
  prints a "please check" warning and returns `None` (evaluate.py:155-187), so an undefined
  metric was meant to be reported, not fatal. But `get_f1` then computes `2 * None` when
  precision or recall is `None`. And `cross_validation` adds every metric to its running
  total, so `total += None` fails too. Neither `TypeError` is caught, so the whole run stops.
  `ClassRunRaisesIff` and `NoTruePositiveRaises` prove when this happens: a pass stops exactly
  when one of its folds has no true positive for the room.
- **The number of folds is not always ten.** `FOLD_NUM = 10`, and the totals are divided by
  it (evaluate.py:10, 79-86), so ten folds were meant. The loop takes
  `range(0, n, n // 10)` instead:
  - When `n // 10` divides `n` but ten does not divide `n`, there are more than ten folds,
    yet the averages still divide by ten. For example, 19 rows give 19 folds
    (`NineteenRowsNineteenFolds`).
  - When `n // 10` does not divide `n` (21 rows, say, give step 2), the last window runs past
    the data. `separate_data` then joins the rows before the window, a two-dimensional array,
    with the empty list after it, which numpy reads as one-dimensional. `np.concatenate`
    refuses that with a `ValueError` (evaluate.py:112). So no pass over such a data set
    completes (`IndivisibleNeverCompletes`).
  - With fewer than ten rows the step is 0, and `range` raises `ValueError` at once.
- **`tn` is counted as written.** `get_tp_fp_tn_fn` counts as `tn` only the other diagonal
  cells. So accuracy can be undefined for a matrix that is not empty (`OffDiagonalUncounted`).

## Model

| member | source | states |
|---|---|---|
| DecisionTree.Predict | evaluate.py:116-132 | the predicted room is the label of some leaf of the tree |
| DecisionTree.PredictInRegion | evaluate.py:116-132 | a row that satisfies every comparison on the path to a leaf is predicted that leaf's room |
| DecisionTree.SomeRegion | evaluate.py:116-132 | every row the tree can route satisfies the comparisons of some leaf's path |
| DecisionTree.RegionsDisjoint | evaluate.py:123-132 | no row satisfies the paths of two different leaves, since a split sends a row strictly left (greater than the threshold) or right |
| Confusion.ConfusionOf | evaluate.py:142-147 | the matrix the loop must build: it is always 4×4; what its cells, rows, columns and diagonal count is stated by the five lemmas below |
| Confusion.ConfusionCounts | evaluate.py:142-148 | cell [i][j] is the number of test rows of room i+1 that the tree predicts as room j+1 |
| Confusion.ConfusionTotal | evaluate.py:142-148 | the cells add up to the number of test rows, so each row is counted exactly once |
| Confusion.ConfusionTrace | evaluate.py:20-23 | the diagonal adds up to the number of correctly predicted rows |
| Confusion.ConfusionRowSum | evaluate.py:145-147 | row c adds up to the number of test rows whose actual room is c+1 |
| Confusion.ConfusionColumnSum | evaluate.py:146-147 | column c adds up to the number of test rows predicted as room c+1 |
| Confusion.GetConfusionMatrix | evaluate.py:135-148 | the loop over the test rows builds exactly ConfusionOf, a 4×4 matrix whose cells total the number of rows |
| Confusion.Evaluate | evaluate.py:14-27 | accuracy is None exactly for an empty test set; otherwise it is the number of correct predictions over the number of rows, in [0, 1] |
| Metrics.GetTpFpTnFn | evaluate.py:190-195 | tp is the diagonal cell of room c; tp+fp is column c; tp+fn is row c; tp+tn is the whole diagonal |
| Metrics.CountsAtMostTotal | evaluate.py:190-195 | tp+fp+tn+fn never exceeds the number of counted rows |
| Metrics.OffDiagonalUncounted | evaluate.py:190-195 | a single row of room 2 predicted as room 3 gives room 1 zero counts and an undefined accuracy, although the matrix is not empty |
| Metrics.WorkedExample | evaluate.py:151-195 | for [[3,1],[0,4]] and room 1, the counts are (3,0,4,1), precision is 1, recall is 0.75 and accuracy is 0.875 |
| Metrics.GetPrecision | evaluate.py:161-168 | None exactly when nothing is predicted as the room; otherwise tp over the column sum, in [0, 1] |
| Metrics.GetRecall | evaluate.py:151-158 | None exactly when no test row is of the room; otherwise tp over the row sum, in [0, 1] |
| Metrics.GetF1 | evaluate.py:171-177 | TypeError exactly when precision or recall is None; None exactly when tp is 0; otherwise 2tp/(column sum + row sum), in (0, 1] |
| Metrics.F1BetweenPrecisionRecall | evaluate.py:171-177 | a defined F1 lies between precision and recall |
| Metrics.GetAccuracy | evaluate.py:180-187 | None exactly when the diagonal, row c and column c are all zero; otherwise the diagonal over (diagonal + row c + column c - 2tp), in [0, 1] |
| Metrics.AllDefinedIff | evaluate.py:64-71 | all four metrics of a fold are defined, so the additions raise nothing, exactly when the room has a true positive |
| Folds.SeparateData | evaluate.py:96-113 | ValueError exactly when the window does not start at 0 and runs past the end of non-empty data; otherwise the test set is the clamped slice [start:end] and the training set is the rows before the window followed by the rows after it |
| Folds.SeparateDataRestores | evaluate.py:105-112 | when separate_data returns, putting the test window back between the two parts of the training set gives the data set again, and as multisets test + training = data |
| Folds.Range | evaluate.py:52 | every start of range(lo, hi, step) lies in [lo, hi) |
| Folds.RangeNext | evaluate.py:52 | consecutive starts are one step apart |
| Folds.RangeLast | evaluate.py:52 | the last of k starts is lo + (k-1)·step |
| Folds.WindowsDisjoint | evaluate.py:52-55 | the test windows [start, start+step) of different folds do not overlap |
| Folds.WindowsCover | evaluate.py:52-55 | every row index lies in the test window of some fold |
| Folds.RangeLength | evaluate.py:48-52 | there are ceil((hi-lo)/step) folds |
| Folds.RangeExactLength | evaluate.py:48-52 | when step divides hi-lo into k parts there are exactly k folds |
| Folds.LastWindowEnd | evaluate.py:52-54 | with 0 < step < n there are at least two folds, and the last window ends at (number of folds)·step |
| Folds.LastFitsIffDivides | evaluate.py:52-54 | the last window ends inside the data exactly when step divides n |
| Folds.LastWindowFits | evaluate.py:52-54 | the last window does not start at 0 and fits exactly when step divides n; every earlier window ends before n |
| Folds.WindowSizesOfRange | evaluate.py:52-55 | the test windows of all folds together hold all the rows |
| Folds.NineteenRowsNineteenFolds | evaluate.py:48-52 | 19 rows give step 1 and 19 folds, more than the 10 that the averages divide by |
| CrossValidation.Initial | evaluate.py:39-45 | the totals before the first fold are zero, with a 4×4 zero matrix |
| CrossValidation.FoldMatrix | evaluate.py:54-63 | a fold's matrix counts exactly the rows of its clamped test window |
| CrossValidation.FoldOutcome | evaluate.py:54-67 | a fold's metrics are all defined exactly when its matrix has a true positive for the room, and then each lies in [0, 1] with F1 > 0 |
| CrossValidation.Outcomes | evaluate.py:52-67 | one outcome per fold start, each well formed and counting the rows of its window |
| CrossValidation.Separated | evaluate.py:52-55 | the number of leading fold starts whose window separate_data accepts: all before it are accepted and the one at it, if any, is refused |
| CrossValidation.AllFoldsSeparate | evaluate.py:48-55 | every fold's window is accepted exactly when the step divides the number of rows |
| CrossValidation.ClassOutcomes | evaluate.py:47-67 | the outcomes of the folds the loop runs, one per accepted start, each well formed |
| CrossValidation.FoldStep | evaluate.py:58-73 | adding a fold raises TypeError exactly when one of its metrics is None; otherwise max_depth becomes the larger of the old maximum and the fold's depth |
| CrossValidation.FoldStepAdds | evaluate.py:68-73 | a completed fold adds each metric to its running total and each cell of its matrix to the same cell of the total matrix |
| CrossValidation.Sweep | evaluate.py:37-73 | the totals of a pass over the folds, starting from zero, keep a 4×4 matrix and can only fail with TypeError; what a pass raises, sums and keeps as max_depth is stated by the lemmas below |
| CrossValidation.ClassRun | evaluate.py:37-73 | the pass of one room: its totals keep a 4×4 matrix; ClassRunRaisesIff states when it raises and the lemmas below what it sums |
| CrossValidation.AbortSticks | evaluate.py:52-73 | once a fold has raised, the pass stays aborted |
| CrossValidation.SweepRaisesIff | evaluate.py:52-73 | a pass raises exactly when one of its folds has an undefined metric |
| CrossValidation.NoTruePositiveRaises | evaluate.py:52-73 | a pass raises exactly when one of its folds has no true positive for the room |
| CrossValidation.ClassRunRaisesIff | evaluate.py:37-73 | the pass of room c raises TypeError exactly when a fold it runs has no true positive for c; otherwise ValueError exactly when the step does not divide the number of rows; it completes exactly when neither happens |
| CrossValidation.IndivisibleNeverCompletes | evaluate.py:48-55 | when the step does not divide the number of rows (21 rows, say) no pass completes, whatever the trees |
| CrossValidation.SweepTotal | evaluate.py:73 | the cells of the total matrix of a completed pass add up to the sum of the fold matrices' totals |
| CrossValidation.SweepSums | evaluate.py:68-73 | each running metric of a completed pass is the sum of that metric over the folds, and each cell of the total matrix is the sum of that cell over the fold matrices |
| CrossValidation.WindowsTotal | evaluate.py:52-73 | fold matrices that each count their window together count the rows of all windows |
| CrossValidation.CompletedTotal | evaluate.py:52-73 | a completed pass whose fold matrices each count the rows of their window of range(0, n, step) counts n rows in total |
| CrossValidation.ClassRunTotal | evaluate.py:37-73 | the total matrix of a completed pass counts every row of the data set exactly once |
| CrossValidation.CompletedRunsEveryFold | evaluate.py:52-73 | a completed pass has run the fold of every start |
| CrossValidation.SweepDepth | evaluate.py:58-60 | max_depth is the largest depth of the folds' trees (0 when there is no fold) |
| CrossValidation.SweepBounds | evaluate.py:68-71 | each metric total of a completed pass lies between 0 and the number of folds |
| CrossValidation.TenFolds | evaluate.py:48-52 | when ten divides the row count, a completed pass has run exactly ten folds |
| CrossValidation.AveragesInUnit | evaluate.py:79-81 | the averages of a completed pass over ten folds lie in [0, 1] |
| CrossValidation.TenFoldAverages | evaluate.py:79-81 | when ten divides the row count, the averages reported for a completed pass lie in [0, 1] |
| CrossValidation.SweepAverages | evaluate.py:79-86 | each reported metric is the sum of that metric over the folds divided by ten, each reported matrix cell the sum of that cell over the fold matrices divided by ten, and the reported depth the largest fold depth |
| CrossValidation.ClassRunAverages | evaluate.py:79-86 | the report of a completed pass of room c averages its folds in the same way |
| CrossValidation.RunFold | evaluate.py:53-73 | one pass of the loop body: ValueError when the fold's window cannot be separated; otherwise the totals FoldStep computes from the fold's outcome, or the TypeError it raises |
| CrossValidation.CrossValidateClass | evaluate.py:37-73 | the fold loop of a room gives exactly ClassRun: the totals of all its folds, the TypeError of the first fold with an undefined metric, or the ValueError of a last window that runs past the data |
| CrossValidation.CrossValidate | evaluate.py:30-93 | room by room: each report is the averages of a completed pass; the run completes exactly when all four passes do, and otherwise stops at the first pass that raised; with fewer than ten rows, or a step that does not divide the number of rows, it gives no report |

## Left out

- The tree builder (`dt.decision_tree_learning`) is not part of this model. It is a
  function-valued parameter. Its only requirement is that the tree it learns from each fold's
  training rows can route that fold's test rows, using attribute numbers within the row, and
  predicts rooms 1–4.
- The tree is a datatype rather than a dictionary. The attribute name `attr_N` becomes the
  number N, so the string parsing at line 127 is not modelled.
- Classifiable: rows with a room outside 1–4, and trees that predict one, are excluded by a
  precondition. In Python, room 0 would index the last row of the matrix and room 5 would
  raise `IndexError`. Neither arises from the data set.
- Printing and table formatting (Texttable) are left out. So are the warning messages and the
  per-fold table rows, whose only inputs are values the model already computes.
- On an aborted run the model does not say what was printed before the exception.
- Reading the input file (`np.loadtxt`, `sys.argv`) and the random shuffle in the `__main__`
  block are left out. The data set is a parameter in its already-shuffled order.
- Floating-point rounding is left out: ratios and averages are exact reals.
- SeparateData: the rows are taken to be one-dimensional numpy arrays, as `np.loadtxt` gives
  them, so that the error condition of `np.concatenate` is the one stated.
- CrossValidateClass and the ClassRun lemmas require at least ten rows. With fewer, the step is
  0 and `range` raises `ValueError`. CrossValidate itself handles that case: it returns no
  report and does not complete.
