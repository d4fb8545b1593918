/** The confusion matrix of a tree on a test set, and the overall accuracy read from it. */
module Confusion {
  import opened Wrappers
  import opened Sums
  import opened DecisionTree

  /** The number of rooms (classes). */
  const CLASS_NUM: nat := 4

  /** Counts indexed [actual - 1][predicted - 1]. */
  type Matrix = seq<seq<nat>>

  predicate IsMatrix(m: Matrix)
  {
    |m| == CLASS_NUM && forall i :: 0 <= i < |m| ==> |m[i]| == CLASS_NUM
  }

  predicate IsRoom(l: int)
  {
    1 <= l <= CLASS_NUM
  }

  /** Every row of db can be routed through t. */
  predicate Routable(db: seq<Sample>, t: Tree)
  {
    forall k :: 0 <= k < |db| ==> Fits(t, |db[k].features|)
  }

  /** Every row can be routed through t, every row's actual room and every room t can
      predict are in 1..CLASS_NUM (Python would wrap room 0 to the last row of the matrix
      and fail on room 5; neither arises from the data set). */
  predicate Classifiable(db: seq<Sample>, t: Tree)
  {
    && Routable(db, t)
    && (forall l :: l in Labels(t) ==> IsRoom(l))
    && (forall k :: 0 <= k < |db| ==> IsRoom(db[k].room))
  }

  /** How many rows of db are of room `actual` and predicted as room `predicted`. */
  function Count(db: seq<Sample>, t: Tree, actual: int, predicted: int): (n: nat)
    requires Routable(db, t)
    ensures n <= |db|
  {
    if db == [] then 0
    else
      var x := db[|db| - 1];
      Count(db[..|db| - 1], t, actual, predicted)
        + (if x.room == actual && Predict(x.features, t) == predicted then 1 else 0)
  }

  /** How many rows of db t predicts correctly. */
  function Correct(db: seq<Sample>, t: Tree): (n: nat)
    requires Routable(db, t)
    ensures n <= |db|
  {
    if db == [] then 0
    else
      var x := db[|db| - 1];
      Correct(db[..|db| - 1], t) + (if Predict(x.features, t) == x.room then 1 else 0)
  }

  /** How many rows of db are of room `actual`. */
  function ActualCount(db: seq<Sample>, actual: int): (n: nat)
    ensures n <= |db|
  {
    if db == [] then 0
    else ActualCount(db[..|db| - 1], actual) + (if db[|db| - 1].room == actual then 1 else 0)
  }

  /** How many rows of db t predicts as room `predicted`. */
  function PredictedCount(db: seq<Sample>, t: Tree, predicted: int): (n: nat)
    requires Routable(db, t)
    ensures n <= |db|
  {
    if db == [] then 0
    else
      var x := db[|db| - 1];
      PredictedCount(db[..|db| - 1], t, predicted) + (if Predict(x.features, t) == predicted then 1 else 0)
  }

  /** The rows of db but the last can be classified whenever db can. */
  lemma ClassifiablePrefix(db: seq<Sample>, t: Tree, k: nat)
    requires Classifiable(db, t) && k <= |db|
    ensures Classifiable(db[..k], t)
  {
    assert forall i :: 0 <= i < k ==> db[..k][i] == db[i];
  }

  /** The confusion matrix of t on db: a matrix of zeros with one count added at cell
      [actual - 1][predicted - 1] for every row, in order. */
  function ConfusionOf(db: seq<Sample>, t: Tree): (m: Matrix)
    requires Classifiable(db, t)
    ensures IsMatrix(m)
  {
    if db == [] then ZeroMatrix()
    else
      var n := |db| - 1;
      ClassifiablePrefix(db, t, n);
      Increment(ConfusionOf(db[..n], t), db[n].room - 1, Predict(db[n].features, t) - 1)
  }

  function ZeroMatrix(): (m: Matrix)
    ensures IsMatrix(m)
  {
    seq(CLASS_NUM, _ => seq(CLASS_NUM, _ => 0))
  }

  /** The matrix with one more count in cell [i][j]: `confusion_matrix[i][j] += 1`. */
  function Increment(m: Matrix, i: nat, j: nat): (r: Matrix)
    requires IsMatrix(m) && i < CLASS_NUM && j < CLASS_NUM
    ensures IsMatrix(r)
  {
    m[i := m[i][j := m[i][j] + 1]]
  }

  /** Element-wise sum of two matrices (numpy's `+` on the fold matrices). */
  function MatrixAdd(a: Matrix, b: Matrix): (r: Matrix)
    requires IsMatrix(a) && IsMatrix(b)
    ensures IsMatrix(r)
  {
    seq(CLASS_NUM, i requires 0 <= i < CLASS_NUM => Plus(a[i], b[i]))
  }

  function RowSums(m: Matrix): seq<nat>
  {
    seq(|m|, i requires 0 <= i < |m| => Sum(m[i]))
  }

  /** The sum of all cells. */
  function Total(m: Matrix): nat
  {
    Sum(RowSums(m))
  }

  function Column(m: Matrix, c: nat): seq<nat>
    requires IsMatrix(m) && c < CLASS_NUM
  {
    seq(CLASS_NUM, i requires 0 <= i < CLASS_NUM => m[i][c])
  }

  function Diagonal(m: Matrix): seq<nat>
    requires IsMatrix(m)
  {
    seq(CLASS_NUM, i requires 0 <= i < CLASS_NUM => m[i][i])
  }

  /** The sum of the diagonal cells (`total_diagonal`). */
  function Trace(m: Matrix): nat
    requires IsMatrix(m)
  {
    Sum(Diagonal(m))
  }

  /** Cell [i][j] counts the rows of room i+1 that t predicts as room j+1. */
  lemma {:induction false} ConfusionCounts(db: seq<Sample>, t: Tree, i: nat, j: nat)
    requires Classifiable(db, t) && i < CLASS_NUM && j < CLASS_NUM
    ensures ConfusionOf(db, t)[i][j] == Count(db, t, i + 1, j + 1)
  {
    if db != [] {
      var n := |db| - 1;
      ClassifiablePrefix(db, t, n);
      ConfusionCounts(db[..n], t, i, j);
    }
  }

  /** The confusion matrix of a prefix one row longer. */
  lemma ConfusionStep(db: seq<Sample>, t: Tree, k: nat)
    requires Classifiable(db, t) && k < |db|
    ensures Classifiable(db[..k], t) && Classifiable(db[..k + 1], t)
    ensures ConfusionOf(db[..k + 1], t) == Increment(ConfusionOf(db[..k], t), db[k].room - 1, Predict(db[k].features, t) - 1)
  {
    ClassifiablePrefix(db, t, k);
    ClassifiablePrefix(db, t, k + 1);
    assert db[..k + 1][..k] == db[..k];
  }

  lemma {:induction false} TotalIncrement(m: Matrix, i: nat, j: nat)
    requires IsMatrix(m) && i < CLASS_NUM && j < CLASS_NUM
    ensures Total(Increment(m, i, j)) == Total(m) + 1
  {
    var r := Increment(m, i, j);
    SumBump(m[i], j);
    assert RowSums(r) == RowSums(m)[i := RowSums(m)[i] + 1];
    SumBump(RowSums(m), i);
  }

  lemma {:induction false} TraceIncrement(m: Matrix, i: nat, j: nat)
    requires IsMatrix(m) && i < CLASS_NUM && j < CLASS_NUM
    ensures Trace(Increment(m, i, j)) == Trace(m) + (if i == j then 1 else 0)
  {
    var r := Increment(m, i, j);
    if i == j {
      assert Diagonal(r) == Diagonal(m)[i := Diagonal(m)[i] + 1];
      SumBump(Diagonal(m), i);
    } else {
      assert Diagonal(r) == Diagonal(m);
    }
  }

  lemma {:induction false} RowIncrement(m: Matrix, i: nat, j: nat, c: nat)
    requires IsMatrix(m) && i < CLASS_NUM && j < CLASS_NUM && c < CLASS_NUM
    ensures Sum(Increment(m, i, j)[c]) == Sum(m[c]) + (if i == c then 1 else 0)
  {
    if i == c {
      SumBump(m[c], j);
    }
  }

  lemma {:induction false} ColumnIncrement(m: Matrix, i: nat, j: nat, c: nat)
    requires IsMatrix(m) && i < CLASS_NUM && j < CLASS_NUM && c < CLASS_NUM
    ensures Sum(Column(Increment(m, i, j), c)) == Sum(Column(m, c)) + (if j == c then 1 else 0)
  {
    var r := Increment(m, i, j);
    if j == c {
      assert Column(r, c) == Column(m, c)[i := Column(m, c)[i] + 1];
      SumBump(Column(m, c), i);
    } else {
      assert Column(r, c) == Column(m, c);
    }
  }

  lemma ZeroSums(m: Matrix, c: nat)
    requires m == ZeroMatrix() && c < CLASS_NUM
    ensures Total(m) == 0 && Trace(m) == 0 && Sum(m[c]) == 0 && Sum(Column(m, c)) == 0
  {
    forall i | 0 <= i < CLASS_NUM ensures Sum(m[i]) == 0 {
      SumZeros(m[i]);
    }
    SumZeros(RowSums(m));
    SumZeros(Diagonal(m));
    SumZeros(Column(m, c));
  }

  /** Adding two matrices adds their totals. */
  lemma MatrixAddTotal(a: Matrix, b: Matrix)
    requires IsMatrix(a) && IsMatrix(b)
    ensures Total(MatrixAdd(a, b)) == Total(a) + Total(b)
  {
    var m := MatrixAdd(a, b);
    forall i | 0 <= i < CLASS_NUM ensures RowSums(m)[i] == RowSums(a)[i] + RowSums(b)[i] {
      SumPlus(a[i], b[i]);
    }
    assert RowSums(m) == Plus(RowSums(a), RowSums(b));
    SumPlus(RowSums(a), RowSums(b));
  }

  /** The matrix of a non-empty test set is that of its rows but the last, incremented at
      the last row's cell. */
  lemma LastRowStep(db: seq<Sample>, t: Tree)
    requires Classifiable(db, t) && db != []
    ensures Classifiable(db[..|db| - 1], t)
    ensures IsRoom(db[|db| - 1].room) && IsRoom(Predict(db[|db| - 1].features, t))
    ensures ConfusionOf(db, t)
         == Increment(ConfusionOf(db[..|db| - 1], t), db[|db| - 1].room - 1, Predict(db[|db| - 1].features, t) - 1)
  {
    ClassifiablePrefix(db, t, |db| - 1);
  }

  /** Every test row is counted exactly once. */
  lemma {:induction false} ConfusionTotal(db: seq<Sample>, t: Tree)
    requires Classifiable(db, t)
    ensures Total(ConfusionOf(db, t)) == |db|
  {
    if db == [] {
      ZeroSums(ConfusionOf(db, t), 0);
    } else {
      var n := |db| - 1;
      LastRowStep(db, t);
      ConfusionTotal(db[..n], t);
      TotalIncrement(ConfusionOf(db[..n], t), db[n].room - 1, Predict(db[n].features, t) - 1);
    }
  }

  /** The diagonal counts the correct predictions. */
  lemma {:induction false} ConfusionTrace(db: seq<Sample>, t: Tree)
    requires Classifiable(db, t)
    ensures Trace(ConfusionOf(db, t)) == Correct(db, t)
  {
    if db == [] {
      ZeroSums(ConfusionOf(db, t), 0);
    } else {
      var n := |db| - 1;
      LastRowStep(db, t);
      ConfusionTrace(db[..n], t);
      TraceIncrement(ConfusionOf(db[..n], t), db[n].room - 1, Predict(db[n].features, t) - 1);
    }
  }

  /** Row c counts the test rows of room c+1. */
  lemma {:induction false} ConfusionRowSum(db: seq<Sample>, t: Tree, c: nat)
    requires Classifiable(db, t) && c < CLASS_NUM
    ensures Sum(ConfusionOf(db, t)[c]) == ActualCount(db, c + 1)
  {
    if db == [] {
      ZeroSums(ConfusionOf(db, t), c);
    } else {
      var n := |db| - 1;
      LastRowStep(db, t);
      ConfusionRowSum(db[..n], t, c);
      RowIncrement(ConfusionOf(db[..n], t), db[n].room - 1, Predict(db[n].features, t) - 1, c);
    }
  }

  /** Column c counts the test rows predicted as room c+1. */
  lemma {:induction false} ConfusionColumnSum(db: seq<Sample>, t: Tree, c: nat)
    requires Classifiable(db, t) && c < CLASS_NUM
    ensures Sum(Column(ConfusionOf(db, t), c)) == PredictedCount(db, t, c + 1)
  {
    if db == [] {
      ZeroSums(ConfusionOf(db, t), c);
    } else {
      var n := |db| - 1;
      LastRowStep(db, t);
      ConfusionColumnSum(db[..n], t, c);
      ColumnIncrement(ConfusionOf(db[..n], t), db[n].room - 1, Predict(db[n].features, t) - 1, c);
    }
  }

  /** `get_confusion_matrix`: starts from a matrix of zeros and, for every test row, adds one
      to the cell [actual - 1][predicted - 1]. The result is the matrix of counts, and its
      cells add up to the number of test rows. */
  method GetConfusionMatrix(testDb: seq<Sample>, trainedTree: Tree) returns (cm: Matrix)
    requires Classifiable(testDb, trainedTree)
    ensures cm == ConfusionOf(testDb, trainedTree)
    ensures IsMatrix(cm) && Total(cm) == |testDb|
  {
    cm := ZeroMatrix();
    assert testDb[..0] == [];
    for k := 0 to |testDb|
      invariant Classifiable(testDb[..k], trainedTree)
      invariant cm == ConfusionOf(testDb[..k], trainedTree)
    {
      var row := testDb[k];
      var actualRoom := row.room;
      var predictedRoom := Predict(row.features, trainedTree);
      ConfusionStep(testDb, trainedTree, k);
      cm := Increment(cm, actualRoom - 1, predictedRoom - 1);
    }
    assert testDb[..|testDb|] == testDb;
    ConfusionTotal(testDb, trainedTree);
  }

  /** `evaluate`: the diagonal of the confusion matrix divided by the number of test rows,
      i.e. the fraction of rows predicted correctly; `None` (after a printed warning) for an
      empty test set. */
  method Evaluate(testDb: seq<Sample>, trainedTree: Tree) returns (accuracy: Option<real>)
    requires Classifiable(testDb, trainedTree)
    ensures accuracy.None? <==> testDb == []
    ensures accuracy.Some? ==> accuracy.value == Correct(testDb, trainedTree) as real / |testDb| as real
    ensures accuracy.Some? ==> 0.0 <= accuracy.value <= 1.0
  {
    var confusionMatrix := GetConfusionMatrix(testDb, trainedTree);
    var totalDiagonal := 0;
    for i := 0 to CLASS_NUM
      invariant totalDiagonal == Sum(Diagonal(confusionMatrix)[..i])
    {
      assert Diagonal(confusionMatrix)[..i + 1][..i] == Diagonal(confusionMatrix)[..i];
      totalDiagonal := totalDiagonal + confusionMatrix[i][i];
    }
    assert Diagonal(confusionMatrix)[..CLASS_NUM] == Diagonal(confusionMatrix);
    ConfusionTrace(testDb, trainedTree);
    if |testDb| == 0 {
      accuracy := None;
    } else {
      RatioInUnit(totalDiagonal, |testDb|);
      accuracy := Some(totalDiagonal as real / |testDb| as real);
    }
  }
}
