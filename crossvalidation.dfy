/** The k-fold cross-validation loop: one pass over the fold windows per room, summing the
    fold metrics and matrices and tracking the deepest tree. */
module CrossValidation {
  import opened Wrappers
  import opened Sums
  import opened DecisionTree
  import opened Confusion
  import opened Metrics
  import opened Folds

  /** The number of folds the step size is derived from and the totals are divided by. */
  const FOLD_NUM: nat := 10

  /** `dt.decision_tree_learning(training_db, 0)`: a trained tree and its depth. */
  type Learner = seq<Sample> -> (Tree, nat)

  /** The running totals of one room's pass: `total_accuracy`, `total_precision`,
      `total_recall`, `total_f1`, `total_matrix` and `max_depth`. */
  datatype Totals = Totals(accuracy: real, precision: real, recall: real, f1: real, matrix: Matrix, maxDepth: nat)

  /** What is printed for a room: the totals divided by FOLD_NUM, the maximum depth, and the
      matrix total divided cell by cell by FOLD_NUM. */
  datatype Report = Report(accuracy: real, precision: real, recall: real, f1: real, maxDepth: nat, matrix: seq<seq<real>>)

  /** The totals before the first fold: all zero. */
  function Initial(): (t: Totals)
    ensures IsMatrix(t.matrix)
  {
    Totals(0.0, 0.0, 0.0, 0.0, ZeroMatrix(), 0)
  }

  /** The printed averages of a pass: every total divided by FOLD_NUM, whatever the number
      of folds was. */
  function Averages(t: Totals): Report
    requires IsMatrix(t.matrix)
  {
    var k := FOLD_NUM as real;
    Report(t.accuracy / k, t.precision / k, t.recall / k, t.f1 / k, t.maxDepth,
           seq(CLASS_NUM, i requires 0 <= i < CLASS_NUM =>
             seq(CLASS_NUM, j requires 0 <= j < CLASS_NUM => t.matrix[i][j] as real / k)))
  }

  /** The step size `db_size // FOLD_NUM`. */
  function Step(db: seq<Sample>): nat
  {
    |db| / FOLD_NUM
  }

  /** The fold starts `range(0, db_size, step)`. */
  function FoldStarts(db: seq<Sample>): seq<nat>
    requires |db| >= FOLD_NUM
  {
    Range(0, |db|, Step(db))
  }

  /** `separate_data(all_db_list, start, start + step, db_size)`: the test and training rows
      of the fold starting at `start`, or the ValueError that separating them raises. */
  function FoldSplit(db: seq<Sample>, start: nat): Result<(seq<Sample>, seq<Sample>)>
  {
    SeparateData(db, start, start + Step(db), |db|)
  }

  /** The learner, trained on the training rows of any fold, returns a tree that can
      classify that fold's test rows. */
  ghost predicate Serves(learner: Learner, db: seq<Sample>)
  {
    forall start: nat :: FoldSplit(db, start).Ok? ==>
      Classifiable(FoldSplit(db, start).value.0, learner(FoldSplit(db, start).value.1).0)
  }

  /** The tree and depth learned from the training rows of the fold starting at `start`. */
  function FoldModel(db: seq<Sample>, start: nat, learner: Learner): (Tree, nat)
    requires FoldSplit(db, start).Ok?
  {
    learner(FoldSplit(db, start).value.1)
  }

  /** The confusion matrix of the fold starting at `start`. */
  function FoldMatrix(db: seq<Sample>, start: nat, learner: Learner): (m: Matrix)
    requires Serves(learner, db) && FoldSplit(db, start).Ok?
    ensures IsMatrix(m) && Total(m) == Min(start + Step(db), |db|) - Min(start, |db|)
  {
    var test := FoldSplit(db, start).value.0;
    var tree := FoldModel(db, start, learner).0;
    ConfusionTotal(test, tree);
    ConfusionOf(test, tree)
  }

  /** What one pass of the loop body computes before touching the totals: the fold's
      confusion matrix, its tree's depth and the four metrics of room c. */
  datatype Outcome = Outcome(matrix: Matrix, depth: nat, precision: Option<real>, recall: Option<real>,
                             f1: Result<Option<real>>, accuracy: Option<real>)

  /** None of the four metrics is `None`, so adding them raises no TypeError. */
  predicate Defined(o: Outcome)
  {
    o.precision.Some? && o.recall.Some? && o.f1.Ok? && o.f1.value.Some? && o.accuracy.Some?
  }

  /** What the metric functions guarantee about a fold of room c: the metrics are defined
      exactly when the matrix has a true positive for c, and then each lies in [0, 1]. */
  predicate WellFormed(c: nat, o: Outcome)
  {
    && IsMatrix(o.matrix) && c < CLASS_NUM
    && (Defined(o) <==> o.matrix[c][c] > 0)
    && (Defined(o) ==>
          && 0.0 <= o.precision.value <= 1.0 && 0.0 <= o.recall.value <= 1.0
          && 0.0 < o.f1.value.value <= 1.0 && 0.0 <= o.accuracy.value <= 1.0)
  }

  /** The outcome of the fold starting at `start`. */
  function FoldOutcome(db: seq<Sample>, c: nat, start: nat, learner: Learner): (o: Outcome)
    requires c < CLASS_NUM && Serves(learner, db) && FoldSplit(db, start).Ok?
    ensures WellFormed(c, o) && Total(o.matrix) == Min(start + Step(db), |db|) - Min(start, |db|)
  {
    var cm := FoldMatrix(db, start, learner);
    AllDefinedIff(c, cm);
    Outcome(cm, FoldModel(db, start, learner).1,
            GetPrecision(c, cm), GetRecall(c, cm), GetF1(c, cm), GetAccuracy(c, cm))
  }

  /** The outcomes of the folds starting at `starts`, in order. */
  function Outcomes(db: seq<Sample>, c: nat, starts: seq<nat>, learner: Learner): (os: seq<Outcome>)
    requires c < CLASS_NUM && Serves(learner, db)
    requires forall j :: 0 <= j < |starts| ==> FoldSplit(db, starts[j]).Ok?
    ensures |os| == |starts|
    ensures forall j :: 0 <= j < |os| ==>
      WellFormed(c, os[j]) && Total(os[j].matrix) == Min(starts[j] + Step(db), |db|) - Min(starts[j], |db|)
  {
    seq(|starts|, j requires 0 <= j < |starts| => FoldOutcome(db, c, starts[j], learner))
  }

  /** How many of the fold starts, from the first, `separate_data` accepts: the loop runs
      those folds and then stops at the next one, if any. */
  function Separated(db: seq<Sample>, starts: seq<nat>): (k: nat)
    ensures k <= |starts|
    ensures forall j :: 0 <= j < k ==> FoldSplit(db, starts[j]).Ok?
    ensures k < |starts| ==> !FoldSplit(db, starts[k]).Ok?
  {
    if starts == [] || !FoldSplit(db, starts[0]).Ok? then 0
    else 1 + Separated(db, starts[1..])
  }

  /** Every fold's window can be separated exactly when the step size divides the number of
      rows; otherwise the last window runs past the data and only that one cannot. */
  lemma AllFoldsSeparate(db: seq<Sample>)
    requires |db| >= FOLD_NUM
    ensures Separated(db, FoldStarts(db)) == |FoldStarts(db)| <==> |db| % Step(db) == 0
  {
    var starts, n := FoldStarts(db), |db|;
    LastWindowFits(n, Step(db));
    var last := |starts| - 1;
    if n % Step(db) == 0 {
      assert FoldSplit(db, starts[last]).Ok?;
      forall j | 0 <= j < last ensures FoldSplit(db, starts[j]).Ok? {
      }
    } else {
      assert !FoldSplit(db, starts[last]).Ok?;
    }
  }

  /** The outcomes of the folds of room c that the loop runs: windows start at 0, step,
      2·step, ... up to the first window that cannot be separated. */
  function ClassOutcomes(db: seq<Sample>, c: nat, learner: Learner): (os: seq<Outcome>)
    requires c < CLASS_NUM && Serves(learner, db) && |db| >= FOLD_NUM
    ensures |os| == Separated(db, FoldStarts(db))
    ensures Matrices(os) && forall j :: 0 <= j < |os| ==> WellFormed(c, os[j])
  {
    var starts := FoldStarts(db);
    Outcomes(db, c, starts[..Separated(db, starts)], learner)
  }

  /** Every outcome carries a 4×4 matrix. */
  predicate Matrices(os: seq<Outcome>)
  {
    forall j :: 0 <= j < |os| ==> IsMatrix(os[j].matrix)
  }

  /** The rest of one pass of the loop body: add the fold's metrics, matrix and depth to
      the totals. A `None` metric raises a TypeError (`get_f1` multiplies by it, or
      `total_... += None` adds it). */
  function FoldStep(acc: Totals, o: Outcome): (r: Result<Totals>)
    requires IsMatrix(acc.matrix) && IsMatrix(o.matrix)
    ensures r.Ok? || r.TypeError?
    ensures r.Ok? <==> Defined(o)
    ensures r.Ok? ==> IsMatrix(r.value.matrix) && r.value.maxDepth >= acc.maxDepth && r.value.maxDepth >= o.depth
    ensures r.Ok? ==> r.value.maxDepth == acc.maxDepth || r.value.maxDepth == o.depth
  {
    if !Defined(o) then TypeError
    else
      Ok(Totals(acc.accuracy + o.accuracy.value, acc.precision + o.precision.value,
                acc.recall + o.recall.value, acc.f1 + o.f1.value.value,
                MatrixAdd(o.matrix, acc.matrix),
                if o.depth > acc.maxDepth then o.depth else acc.maxDepth))
  }

  /** The four metrics a pass adds up fold by fold. */
  datatype Metric = Accuracy | Precision | Recall | F1

  /** The value of metric m in a fold's outcome (0 where it is `None`). */
  function Score(o: Outcome, m: Metric): real
  {
    match m
    case Accuracy => if o.accuracy.Some? then o.accuracy.value else 0.0
    case Precision => if o.precision.Some? then o.precision.value else 0.0
    case Recall => if o.recall.Some? then o.recall.value else 0.0
    case F1 => if o.f1.Ok? && o.f1.value.Some? then o.f1.value.value else 0.0
  }

  /** The running total of metric m. */
  function Running(t: Totals, m: Metric): real
  {
    match m
    case Accuracy => t.accuracy
    case Precision => t.precision
    case Recall => t.recall
    case F1 => t.f1
  }

  /** The sum of metric m over the folds `os`. */
  function ScoreSum(os: seq<Outcome>, m: Metric): real
  {
    if os == [] then 0.0 else ScoreSum(os[..|os| - 1], m) + Score(os[|os| - 1], m)
  }

  /** The sum of cell [i][j] over the matrices of the folds `os`. */
  function CellSum(os: seq<Outcome>, i: nat, j: nat): nat
    requires Matrices(os) && i < CLASS_NUM && j < CLASS_NUM
  {
    if os == [] then 0 else CellSum(os[..|os| - 1], i, j) + os[|os| - 1].matrix[i][j]
  }

  /** A completed fold adds each of its metrics to the running total of that metric, and
      each cell of its matrix to the same cell of the total matrix. */
  lemma FoldStepAdds(acc: Totals, o: Outcome)
    requires IsMatrix(acc.matrix) && IsMatrix(o.matrix) && FoldStep(acc, o).Ok?
    ensures var t := FoldStep(acc, o).value;
      && (forall m :: Running(t, m) == Running(acc, m) + Score(o, m))
      && (forall i, j :: 0 <= i < CLASS_NUM && 0 <= j < CLASS_NUM ==> t.matrix[i][j] == acc.matrix[i][j] + o.matrix[i][j])
      && Total(t.matrix) == Total(acc.matrix) + Total(o.matrix)
  {
    MatrixAddTotal(o.matrix, acc.matrix);
  }

  /** The totals after the folds with outcomes `os`, in order, starting from zero; a
      TypeError in any fold ends the pass. */
  function Sweep(os: seq<Outcome>): (r: Result<Totals>)
    requires Matrices(os)
    ensures r.Ok? || r.TypeError?
    ensures r.Ok? ==> IsMatrix(r.value.matrix)
  {
    if os == [] then Ok(Initial())
    else
      var previous := Sweep(os[..|os| - 1]);
      if previous.Ok? then FoldStep(previous.value, os[|os| - 1]) else previous
  }

  /** The totals of the whole fold loop of room c: those of the folds it runs, unless one of
      them raised a TypeError, and a ValueError when a later fold cannot be separated. */
  function ClassRun(db: seq<Sample>, c: nat, learner: Learner): (r: Result<Totals>)
    requires c < CLASS_NUM && Serves(learner, db) && |db| >= FOLD_NUM
    ensures r.Ok? ==> IsMatrix(r.value.matrix)
  {
    var r := Sweep(ClassOutcomes(db, c, learner));
    if r.Ok? && Separated(db, FoldStarts(db)) < |FoldStarts(db)| then ValueError else r
  }

  /** One more fold: the totals of a prefix one outcome longer. */
  lemma SweepStep(os: seq<Outcome>, i: nat)
    requires Matrices(os) && i < |os|
    ensures Matrices(os[..i]) && Matrices(os[..i + 1])
    ensures Sweep(os[..i + 1])
         == if Sweep(os[..i]).Ok? then FoldStep(Sweep(os[..i]).value, os[i]) else Sweep(os[..i])
  {
    assert os[..i + 1][..i] == os[..i];
  }

  /** Once a fold has raised, the pass stays aborted. */
  lemma {:induction false} AbortSticks(os: seq<Outcome>, i: nat)
    requires Matrices(os) && i <= |os| && Matrices(os[..i]) && Sweep(os[..i]).TypeError?
    ensures Sweep(os).TypeError?
    decreases |os| - i
  {
    if i < |os| {
      SweepStep(os, i);
      AbortSticks(os, i + 1);
    } else {
      assert os[..i] == os;
    }
  }

  /** A pass raises exactly when one of its folds has an undefined metric. */
  lemma {:induction false} SweepRaisesIff(os: seq<Outcome>)
    requires Matrices(os)
    ensures Sweep(os).TypeError? <==> exists j :: 0 <= j < |os| && !Defined(os[j])
  {
    if os != [] {
      var n := |os| - 1;
      var prefix := os[..n];
      SweepRaisesIff(prefix);
      if exists j :: 0 <= j < n && !Defined(prefix[j]) {
        var j :| 0 <= j < n && !Defined(prefix[j]);
        assert prefix[j] == os[j];
      }
      if exists j :: 0 <= j < |os| && !Defined(os[j]) {
        var j :| 0 <= j < |os| && !Defined(os[j]);
        if j < n {
          assert prefix[j] == os[j];
        }
      }
    }
  }

  /** With outcomes the metric functions produced for room c, a pass raises exactly when
      one of its folds has no true positive for c: then that fold's F1 score is `None`. */
  lemma NoTruePositiveRaises(c: nat, os: seq<Outcome>)
    requires c < CLASS_NUM && Matrices(os) && forall j :: 0 <= j < |os| ==> WellFormed(c, os[j])
    ensures Sweep(os).TypeError? <==> exists j :: 0 <= j < |os| && os[j].matrix[c][c] == 0
  {
    SweepRaisesIff(os);
  }

  /** The pass of room c raises a TypeError exactly when one of the folds it runs has no
      true positive for c, and otherwise a ValueError exactly when the step size does not
      divide the number of rows; it completes exactly when neither happens. */
  lemma ClassRunRaisesIff(db: seq<Sample>, c: nat, learner: Learner)
    requires c < CLASS_NUM && Serves(learner, db) && |db| >= FOLD_NUM
    ensures var os := ClassOutcomes(db, c, learner);
      && (ClassRun(db, c, learner).TypeError? <==> exists j :: 0 <= j < |os| && os[j].matrix[c][c] == 0)
      && (ClassRun(db, c, learner).ValueError? <==>
            (forall j :: 0 <= j < |os| ==> os[j].matrix[c][c] > 0) && |db| % Step(db) != 0)
      && (ClassRun(db, c, learner).Ok? <==>
            (forall j :: 0 <= j < |os| ==> os[j].matrix[c][c] > 0) && |db| % Step(db) == 0)
  {
    NoTruePositiveRaises(c, ClassOutcomes(db, c, learner));
    AllFoldsSeparate(db);
  }

  /** When the step size does not divide the number of rows no pass completes, whatever
      the trees: 21 rows, for instance, give step 2 and a last window [20, 22) that runs
      past the data. */
  lemma IndivisibleNeverCompletes(db: seq<Sample>, c: nat, learner: Learner)
    requires c < CLASS_NUM && Serves(learner, db) && |db| >= FOLD_NUM && |db| % Step(db) != 0
    ensures !ClassRun(db, c, learner).Ok?
  {
    AllFoldsSeparate(db);
  }

  /** The summed matrix totals of the outcomes `os`. */
  function MatrixTotals(os: seq<Outcome>): nat
  {
    if os == [] then 0 else MatrixTotals(os[..|os| - 1]) + Total(os[|os| - 1].matrix)
  }

  /** The total matrix of a completed pass holds the cells of all its folds' matrices. */
  lemma {:induction false} SweepTotal(os: seq<Outcome>)
    requires Matrices(os) && Sweep(os).Ok?
    ensures Total(Sweep(os).value.matrix) == MatrixTotals(os)
  {
    if os == [] {
      ZeroSums(ZeroMatrix(), 0);
    } else {
      var n := |os| - 1;
      assert Matrices(os[..n]);
      SweepTotal(os[..n]);
      FoldStepAdds(Sweep(os[..n]).value, os[n]);
    }
  }

  /** Each running metric of a completed pass is the sum of that metric over its folds, and
      each cell of its total matrix the sum of that cell over the folds' matrices. */
  lemma {:induction false} SweepSums(os: seq<Outcome>)
    requires Matrices(os) && Sweep(os).Ok?
    ensures forall m :: Running(Sweep(os).value, m) == ScoreSum(os, m)
    ensures forall i, j :: 0 <= i < CLASS_NUM && 0 <= j < CLASS_NUM ==>
      Sweep(os).value.matrix[i][j] == CellSum(os, i, j)
  {
    if os != [] {
      var n := |os| - 1;
      assert Matrices(os[..n]);
      SweepSums(os[..n]);
      FoldStepAdds(Sweep(os[..n]).value, os[n]);
    }
  }

  /** Folds whose matrices each count the rows of their test window together count the
      rows of all the windows. */
  lemma {:induction false} WindowsTotal(os: seq<Outcome>, starts: seq<nat>, step: nat, n: nat)
    requires |os| == |starts|
    requires forall j :: 0 <= j < |os| ==> Total(os[j].matrix) == Min(starts[j] + step, n) - Min(starts[j], n)
    ensures MatrixTotals(os) == WindowSizes(starts, step, n)
  {
    if starts != [] {
      var k := |starts| - 1;
      assert forall j :: 0 <= j < k ==> os[..k][j] == os[j] && starts[..k][j] == starts[j];
      WindowsTotal(os[..k], starts[..k], step, n);
      WindowSizesLast(starts, step, n);
    }
  }

  /** Every row is in exactly one test window: the total matrix of a completed pass counts
      each row of the data set once. */
  lemma ClassRunTotal(db: seq<Sample>, c: nat, learner: Learner)
    requires c < CLASS_NUM && Serves(learner, db) && |db| >= FOLD_NUM && ClassRun(db, c, learner).Ok?
    ensures Total(ClassRun(db, c, learner).value.matrix) == |db|
  {
    var starts, os := FoldStarts(db), ClassOutcomes(db, c, learner);
    CompletedRunsEveryFold(db, c, learner);
    assert starts[..|starts|] == starts;
    assert os == Outcomes(db, c, starts, learner);
    CompletedTotal(os, starts, Step(db), |db|);
  }

  /** A completed pass over folds whose matrices each count the rows of their window of
      range(0, n, step) counts n rows in all. */
  lemma CompletedTotal(os: seq<Outcome>, starts: seq<nat>, step: nat, n: nat)
    requires step > 0 && starts == Range(0, n, step) && |os| == |starts|
    requires Matrices(os) && Sweep(os).Ok?
    requires forall j :: 0 <= j < |os| ==> Total(os[j].matrix) == Min(starts[j] + step, n) - Min(starts[j], n)
    ensures Total(Sweep(os).value.matrix) == n
  {
    SweepTotal(os);
    WindowsTotal(os, starts, step, n);
    WindowSizesOfRange(0, n, step);
  }

  /** `max_depth` of a completed pass is the largest depth of its folds' trees (0 when
      there are none). */
  lemma {:induction false} SweepDepth(os: seq<Outcome>)
    requires Matrices(os) && Sweep(os).Ok?
    ensures var d := Sweep(os).value.maxDepth;
      && (forall j :: 0 <= j < |os| ==> os[j].depth <= d)
      && (d == 0 || exists j :: 0 <= j < |os| && os[j].depth == d)
  {
    if os != [] {
      var n := |os| - 1;
      var prefix := os[..n];
      assert Matrices(prefix);
      var prev := Sweep(prefix);
      assert prev.Ok? && Sweep(os) == FoldStep(prev.value, os[n]);
      SweepDepth(prefix);
      var d := Sweep(os).value.maxDepth;
      assert d >= prev.value.maxDepth && d >= os[n].depth;
      forall j | 0 <= j < |os| ensures os[j].depth <= d {
        if j < n {
          assert prefix[j] == os[j];
        }
      }
      if d != os[n].depth && d != 0 {
        assert d == prev.value.maxDepth;
        var j :| 0 <= j < n && prefix[j].depth == d;
        assert prefix[j] == os[j];
      }
    }
  }

  /** Each metric total of a completed pass lies between 0 and the number of folds. */
  lemma {:induction false} SweepBounds(c: nat, os: seq<Outcome>)
    requires Matrices(os) && forall j :: 0 <= j < |os| ==> WellFormed(c, os[j])
    requires Sweep(os).Ok?
    ensures var t, k := Sweep(os).value, |os| as real;
      && 0.0 <= t.accuracy <= k && 0.0 <= t.precision <= k
      && 0.0 <= t.recall <= k && 0.0 <= t.f1 <= k
  {
    if os != [] {
      var n := |os| - 1;
      assert forall j :: 0 <= j < n ==> os[..n][j] == os[j];
      SweepBounds(c, os[..n]);
    }
  }

  /** A completed pass has run the fold of every start. */
  lemma CompletedRunsEveryFold(db: seq<Sample>, c: nat, learner: Learner)
    requires c < CLASS_NUM && Serves(learner, db) && |db| >= FOLD_NUM && ClassRun(db, c, learner).Ok?
    ensures Separated(db, FoldStarts(db)) == |FoldStarts(db)| == |ClassOutcomes(db, c, learner)|
  {
  }

  /** When the row count is a multiple of FOLD_NUM, a completed pass has run exactly
      FOLD_NUM folds. */
  lemma TenFolds(db: seq<Sample>, c: nat, learner: Learner)
    requires c < CLASS_NUM && Serves(learner, db) && |db| >= FOLD_NUM && |db| % FOLD_NUM == 0
    requires ClassRun(db, c, learner).Ok?
    ensures |ClassOutcomes(db, c, learner)| == FOLD_NUM
  {
    CompletedRunsEveryFold(db, c, learner);
    RangeExactLength(0, |db|, Step(db), FOLD_NUM);
  }

  /** When the row count is a multiple of FOLD_NUM, the averages reported for a completed
      pass lie in [0, 1]. */
  lemma TenFoldAverages(db: seq<Sample>, c: nat, learner: Learner)
    requires c < CLASS_NUM && Serves(learner, db) && |db| >= FOLD_NUM && |db| % FOLD_NUM == 0
    requires ClassRun(db, c, learner).Ok?
    ensures var a := Averages(ClassRun(db, c, learner).value);
      && 0.0 <= a.accuracy <= 1.0 && 0.0 <= a.precision <= 1.0
      && 0.0 <= a.recall <= 1.0 && 0.0 <= a.f1 <= 1.0
  {
    var os := ClassOutcomes(db, c, learner);
    TenFolds(db, c, learner);
    assert ClassRun(db, c, learner) == Sweep(os);
    AveragesInUnit(c, os);
  }

  /** The averages of a completed pass over FOLD_NUM folds lie in [0, 1]. */
  lemma AveragesInUnit(c: nat, os: seq<Outcome>)
    requires Matrices(os) && forall j :: 0 <= j < |os| ==> WellFormed(c, os[j])
    requires Sweep(os).Ok? && |os| == FOLD_NUM
    ensures var a := Averages(Sweep(os).value);
      && 0.0 <= a.accuracy <= 1.0 && 0.0 <= a.precision <= 1.0
      && 0.0 <= a.recall <= 1.0 && 0.0 <= a.f1 <= 1.0
  {
    var t := Sweep(os).value;
    SweepBounds(c, os);
    TenthInUnit(t.accuracy);
    TenthInUnit(t.precision);
    TenthInUnit(t.recall);
    TenthInUnit(t.f1);
  }

  /** A total between 0 and FOLD_NUM, divided by FOLD_NUM, lies in [0, 1]. */
  lemma TenthInUnit(x: real)
    requires 0.0 <= x <= FOLD_NUM as real
    ensures 0.0 <= x / FOLD_NUM as real <= 1.0
  {
  }

  /** The metric of a room's report that averages metric m. */
  function Reported(a: Report, m: Metric): real
  {
    match m
    case Accuracy => a.accuracy
    case Precision => a.precision
    case Recall => a.recall
    case F1 => a.f1
  }

  /** What the report of a completed pass holds: each metric is the sum of that metric over
      the folds divided by FOLD_NUM, each matrix cell the sum of that cell over the folds'
      matrices divided by FOLD_NUM, and the depth the largest depth of the folds' trees. */
  lemma SweepAverages(os: seq<Outcome>)
    requires Matrices(os) && Sweep(os).Ok?
    ensures var a := Averages(Sweep(os).value);
      && (forall m :: Reported(a, m) == ScoreSum(os, m) / FOLD_NUM as real)
      && (forall i, j :: 0 <= i < CLASS_NUM && 0 <= j < CLASS_NUM ==>
            a.matrix[i][j] == CellSum(os, i, j) as real / FOLD_NUM as real)
      && (forall j :: 0 <= j < |os| ==> os[j].depth <= a.maxDepth)
      && (a.maxDepth == 0 || exists j :: 0 <= j < |os| && os[j].depth == a.maxDepth)
  {
    SweepSums(os);
    SweepDepth(os);
  }

  /** The report of room c, when its pass completes, averages its folds as SweepAverages
      states. */
  lemma ClassRunAverages(db: seq<Sample>, c: nat, learner: Learner)
    requires c < CLASS_NUM && Serves(learner, db) && |db| >= FOLD_NUM && ClassRun(db, c, learner).Ok?
    ensures var a, os := Averages(ClassRun(db, c, learner).value), ClassOutcomes(db, c, learner);
      && (forall m :: Reported(a, m) == ScoreSum(os, m) / FOLD_NUM as real)
      && (forall i, j :: 0 <= i < CLASS_NUM && 0 <= j < CLASS_NUM ==>
            a.matrix[i][j] == CellSum(os, i, j) as real / FOLD_NUM as real)
      && (forall j :: 0 <= j < |os| ==> os[j].depth <= a.maxDepth)
      && (a.maxDepth == 0 || exists j :: 0 <= j < |os| && os[j].depth == a.maxDepth)
  {
    var os := ClassOutcomes(db, c, learner);
    assert ClassRun(db, c, learner) == Sweep(os);
    SweepAverages(os);
  }

  /** One pass of the body of `for start in range(0, db_size, step)` for room `roomi`:
      split off the test window, train on the rest, build the confusion matrix and compute
      the four metrics; FoldStep then adds them, the matrix and the depth to the totals.
      The result is the new totals, the TypeError an undefined metric raises, or the
      ValueError of a window that cannot be separated. */
  method RunFold(allDb: seq<Sample>, roomi: nat, start: nat, step: nat, learner: Learner,
                 totalAccuracy: real, totalPrecision: real, totalRecall: real, totalF1: real,
                 totalMatrix: Matrix, maxDepth: nat)
    returns (r: Result<Totals>)
    requires roomi < CLASS_NUM && Serves(learner, allDb) && IsMatrix(totalMatrix)
    requires step == |allDb| / FOLD_NUM
    ensures !FoldSplit(allDb, start).Ok? ==> r == ValueError
    ensures FoldSplit(allDb, start).Ok? ==>
      r == FoldStep(Totals(totalAccuracy, totalPrecision, totalRecall, totalF1, totalMatrix, maxDepth),
                    FoldOutcome(allDb, roomi, start, learner))
  {
    var dbSize := |allDb|;
    var end := start + step;
    var separated := SeparateData(allDb, start, end, dbSize);
    assert separated == FoldSplit(allDb, start);
    if !separated.Ok? {
      return ValueError;
    }
    var (testDb, trainingDb) := separated.value;
    var (dTree, depth) := learner(trainingDb);
    var confusionMatrix := GetConfusionMatrix(testDb, dTree);
    var precision := GetPrecision(roomi, confusionMatrix);
    var recall := GetRecall(roomi, confusionMatrix);
    var f1 := GetF1(roomi, confusionMatrix);
    var accuracy := GetAccuracy(roomi, confusionMatrix);
    assert confusionMatrix == FoldMatrix(allDb, start, learner);
    r := FoldStep(Totals(totalAccuracy, totalPrecision, totalRecall, totalF1, totalMatrix, maxDepth),
                  Outcome(confusionMatrix, depth, precision, recall, f1, accuracy));
  }

  /** The fold loop for room `roomi` (`for start in range(0, db_size, step)`, without the
      printing): its result is the totals of all folds, the TypeError of the first fold
      with an undefined metric, or the ValueError of a last window that runs past the data. */
  method CrossValidateClass(allDb: seq<Sample>, roomi: nat, learner: Learner) returns (r: Result<Totals>)
    requires |allDb| >= FOLD_NUM && roomi < CLASS_NUM && Serves(learner, allDb)
    ensures r == ClassRun(allDb, roomi, learner)
  {
    var totalAccuracy, totalPrecision, totalRecall, totalF1 := 0.0, 0.0, 0.0, 0.0;
    var totalMatrix := ZeroMatrix();
    var maxDepth: nat := 0;
    var dbSize := |allDb|;
    var step := dbSize / FOLD_NUM;
    var starts := Range(0, dbSize, step);
    ghost var separated := Separated(allDb, starts);
    ghost var outcomes := ClassOutcomes(allDb, roomi, learner);
    assert outcomes[..0] == [];
    for i := 0 to |starts|
      invariant i <= separated
      invariant IsMatrix(totalMatrix) && Matrices(outcomes[..i])
      invariant Sweep(outcomes[..i])
                == Ok(Totals(totalAccuracy, totalPrecision, totalRecall, totalF1, totalMatrix, maxDepth))
    {
      var next := RunFold(allDb, roomi, starts[i], step, learner,
                          totalAccuracy, totalPrecision, totalRecall, totalF1, totalMatrix, maxDepth);
      if next.ValueError? {
        assert outcomes[..i] == outcomes;
        return ValueError;
      }
      SweepStep(outcomes, i);
      if next.TypeError? {
        AbortSticks(outcomes, i + 1);
        return TypeError;
      }
      totalAccuracy, totalPrecision, totalRecall, totalF1 := next.value.accuracy, next.value.precision, next.value.recall, next.value.f1;
      totalMatrix, maxDepth := next.value.matrix, next.value.maxDepth;
    }
    assert outcomes[..|starts|] == outcomes;
    r := Ok(Totals(totalAccuracy, totalPrecision, totalRecall, totalF1, totalMatrix, maxDepth));
  }

  /** `cross_validation` without the printing: one fold pass per room, in room order; the
      report of every room whose pass completed, and `completed` false when a pass raised
      (the exception ends the whole run). With fewer than FOLD_NUM rows the step size is 0
      and the first pass fails before any fold; when the step size does not divide the
      number of rows the first pass fails too. */
  method CrossValidate(allDb: seq<Sample>, learner: Learner) returns (reports: seq<Report>, completed: bool)
    requires Serves(learner, allDb)
    ensures |reports| <= CLASS_NUM
    ensures completed <==> |reports| == CLASS_NUM
    ensures |allDb| < FOLD_NUM ==> reports == [] && !completed
    ensures |allDb| >= FOLD_NUM ==> forall c :: 0 <= c < |reports| ==>
      ClassRun(allDb, c, learner).Ok? && reports[c] == Averages(ClassRun(allDb, c, learner).value)
    ensures |allDb| >= FOLD_NUM && !completed ==> !ClassRun(allDb, |reports|, learner).Ok?
    ensures |allDb| >= FOLD_NUM && |allDb| % Step(allDb) != 0 ==> reports == [] && !completed
  {
    reports := [];
    if |allDb| < FOLD_NUM {
      // the step size is 0, and `range` refuses a step of 0 (ValueError)
      return reports, false;
    }
    if |allDb| % Step(allDb) != 0 {
      IndivisibleNeverCompletes(allDb, 0, learner);
    }
    for roomi := 0 to CLASS_NUM
      invariant |reports| == roomi
      invariant forall c :: 0 <= c < roomi ==>
        ClassRun(allDb, c, learner).Ok? && reports[c] == Averages(ClassRun(allDb, c, learner).value)
    {
      ghost var previous := reports;
      var r := CrossValidateClass(allDb, roomi, learner);
      if !r.Ok? {
        completed := false;
        return;
      }
      reports := reports + [Averages(r.value)];
      forall c | 0 <= c < roomi + 1
        ensures ClassRun(allDb, c, learner).Ok? && reports[c] == Averages(ClassRun(allDb, c, learner).value)
      {
        if c < roomi {
          assert reports[c] == previous[c];
        }
      }
    }
    completed := true;
  }
}
