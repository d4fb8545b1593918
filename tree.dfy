/** The trained classifier and the walk that routes a feature row to a room label. */
module DecisionTree {

  /** One measurement: the signal strengths, then the room it was taken in
      (the last column of a data row, read with `int(row[-1])`). */
  datatype Sample = Sample(features: seq<real>, room: int)

  /** A leaf stores a room label; a split stores an attribute number (1-based, as in
      `attr_N`), a threshold, the subtree for "greater than" and the subtree for the rest. */
  datatype Tree =
    | Leaf(room: int)
    | Split(attr: int, threshold: real, left: Tree, right: Tree)

  /** Every split of t reads a feature that a row of `width` features has. */
  predicate Fits(t: Tree, width: nat)
  {
    match t
    case Leaf(_) => true
    case Split(a, _, left, right) => 1 <= a <= width && Fits(left, width) && Fits(right, width)
  }

  /** The labels stored in the leaves of t. */
  function Labels(t: Tree): set<int>
  {
    match t
    case Leaf(l) => {l}
    case Split(_, _, left, right) => Labels(left) + Labels(right)
  }

  /** Routes a row down the tree: left when the feature is strictly greater than the
      threshold, right otherwise; the answer is always the label of some leaf. */
  function Predict(row: seq<real>, t: Tree): (r: int)
    requires Fits(t, |row|)
    ensures r in Labels(t)
  {
    match t
    case Leaf(l) => l
    case Split(a, thr, left, right) =>
      if row[a - 1] > thr then Predict(row, left) else Predict(row, right)
  }

  /** One comparison on a root-to-leaf path: `row[attr-1] > threshold` must equal `greater`. */
  datatype Test = Test(attr: int, threshold: real, greater: bool)

  /** A leaf together with the comparisons that lead to it. */
  datatype Region = Region(tests: seq<Test>, room: int)

  predicate Passes(row: seq<real>, c: Test)
  {
    1 <= c.attr <= |row| && (row[c.attr - 1] > c.threshold) == c.greater
  }

  predicate InRegion(row: seq<real>, g: Region)
  {
    forall k :: 0 <= k < |g.tests| ==> Passes(row, g.tests[k])
  }

  /** Puts comparison c in front of the path of every region. */
  function Guard(c: Test, gs: seq<Region>): seq<Region>
  {
    seq(|gs|, k requires 0 <= k < |gs| => Region([c] + gs[k].tests, gs[k].room))
  }

  /** The leaves of t, left to right, each with the comparisons on its path: an independent,
      declarative reading of the tree as a partition of feature space. */
  function Regions(t: Tree): seq<Region>
  {
    match t
    case Leaf(l) => [Region([], l)]
    case Split(a, thr, left, right) =>
      Guard(Test(a, thr, true), Regions(left)) + Guard(Test(a, thr, false), Regions(right))
  }

  /** A guarded region holds a row exactly when the row passes the guard and lies in the
      region. */
  lemma InGuard(row: seq<real>, c: Test, gs: seq<Region>, k: nat)
    requires k < |gs|
    ensures k < |Guard(c, gs)| && Guard(c, gs)[k].room == gs[k].room
    ensures InRegion(row, Guard(c, gs)[k]) <==> Passes(row, c) && InRegion(row, gs[k])
  {
    var g := Guard(c, gs)[k];
    assert g.tests == [c] + gs[k].tests;
    if Passes(row, c) && InRegion(row, gs[k]) {
      forall i | 0 <= i < |g.tests| ensures Passes(row, g.tests[i]) {
        if i > 0 {
          assert g.tests[i] == gs[k].tests[i - 1];
        }
      }
    }
    if InRegion(row, g) {
      assert Passes(row, g.tests[0]);
      forall i | 0 <= i < |gs[k].tests| ensures Passes(row, gs[k].tests[i]) {
        assert gs[k].tests[i] == g.tests[i + 1];
      }
    }
  }

  /** The k-th region of a split: a region of the left subtree guarded by "greater", or one
      of the right subtree guarded by "not greater". */
  lemma SplitRegion(row: seq<real>, t: Tree, k: nat)
    requires t.Split? && k < |Regions(t)|
    ensures var nl := |Regions(t.left)|;
      if k < nl then
        && Regions(t)[k].room == Regions(t.left)[k].room
        && (InRegion(row, Regions(t)[k]) <==>
              Passes(row, Test(t.attr, t.threshold, true)) && InRegion(row, Regions(t.left)[k]))
      else
        && Regions(t)[k].room == Regions(t.right)[k - nl].room
        && (InRegion(row, Regions(t)[k]) <==>
              Passes(row, Test(t.attr, t.threshold, false)) && InRegion(row, Regions(t.right)[k - nl]))
  {
    var gl := Guard(Test(t.attr, t.threshold, true), Regions(t.left));
    var gr := Guard(Test(t.attr, t.threshold, false), Regions(t.right));
    var nl := |Regions(t.left)|;
    if k < nl {
      InGuard(row, Test(t.attr, t.threshold, true), Regions(t.left), k);
      assert Regions(t)[k] == gl[k];
    } else {
      InGuard(row, Test(t.attr, t.threshold, false), Regions(t.right), k - nl);
      assert Regions(t)[k] == gr[k - nl];
    }
  }

  /** A row that satisfies the comparisons leading to a leaf is predicted that leaf's label. */
  lemma {:induction false} PredictInRegion(row: seq<real>, t: Tree, k: nat)
    requires Fits(t, |row|)
    requires k < |Regions(t)| && InRegion(row, Regions(t)[k])
    ensures Predict(row, t) == Regions(t)[k].room
  {
    match t
    case Leaf(_) =>
    case Split(_, _, left, right) =>
      SplitRegion(row, t, k);
      if k < |Regions(left)| {
        PredictInRegion(row, left, k);
      } else {
        PredictInRegion(row, right, k - |Regions(left)|);
      }
  }

  /** Every row that the tree can route lies in some region. */
  lemma {:induction false} SomeRegion(row: seq<real>, t: Tree)
    requires Fits(t, |row|)
    ensures exists k :: 0 <= k < |Regions(t)| && InRegion(row, Regions(t)[k])
  {
    match t
    case Leaf(_) =>
      assert InRegion(row, Regions(t)[0]);
    case Split(a, thr, left, right) =>
      var nl := |Regions(left)|;
      if row[a - 1] > thr {
        SomeRegion(row, left);
        var k :| 0 <= k < nl && InRegion(row, Regions(left)[k]);
        SplitRegion(row, t, k);
      } else {
        SomeRegion(row, right);
        var k :| 0 <= k < |Regions(right)| && InRegion(row, Regions(right)[k]);
        SplitRegion(row, t, nl + k);
      }
  }

  /** No row lies in two different regions. */
  lemma {:induction false} RegionsDisjoint(row: seq<real>, t: Tree, j: nat, k: nat)
    requires j < k < |Regions(t)|
    ensures !(InRegion(row, Regions(t)[j]) && InRegion(row, Regions(t)[k]))
  {
    match t
    case Leaf(_) =>
    case Split(_, _, left, right) =>
      var nl := |Regions(left)|;
      SplitRegion(row, t, j);
      SplitRegion(row, t, k);
      if k < nl {
        RegionsDisjoint(row, left, j, k);
      } else if j >= nl {
        RegionsDisjoint(row, right, j - nl, k - nl);
      }
  }
}
