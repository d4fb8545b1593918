/** One-vs-rest counts for a room and the ratios derived from them. */
module Metrics {
  import opened Wrappers
  import opened Sums
  import opened Confusion

  /** `[tp, fp, tn, fn]` as returned by `get_tp_fp_tn_fn`. */
  datatype Counts = Counts(tp: nat, fp: nat, tn: nat, fn: nat)

  /** `get_tp_fp_tn_fn` for the room with index c: tp is the diagonal cell, fp the rest of
      column c, fn the rest of row c, and tn the OTHER DIAGONAL cells only (cells off the
      diagonal outside row and column c are counted nowhere). */
  function GetTpFpTnFn(c: nat, m: Matrix): (r: Counts)
    requires IsMatrix(m) && c < CLASS_NUM
    ensures r.tp == m[c][c]
    ensures r.tp + r.fp == Sum(Column(m, c))
    ensures r.tp + r.fn == Sum(m[c])
    ensures r.tp + r.tn == Trace(m)
  {
    SumExceptSplit(Column(m, c), c);
    SumExceptSplit(m[c], c);
    SumExceptSplit(Diagonal(m), c);
    Counts(m[c][c], SumExcept(Column(m, c), c), SumExcept(Diagonal(m), c), SumExcept(m[c], c))
  }

  /** `get_precision`: tp / (tp + fp), the share of rows predicted as room c+1 that are
      of that room; `None` exactly when nothing was predicted as room c+1. */
  function GetPrecision(c: nat, m: Matrix): (r: Option<real>)
    requires IsMatrix(m) && c < CLASS_NUM
    ensures r.None? <==> Sum(Column(m, c)) == 0
    ensures r.Some? ==> r.value == m[c][c] as real / Sum(Column(m, c)) as real
    ensures r.Some? ==> 0.0 <= r.value <= 1.0
  {
    var k := GetTpFpTnFn(c, m);
    if k.tp + k.fp == 0 then None
    else
      RatioInUnit(k.tp, k.tp + k.fp);
      Some(k.tp as real / (k.tp + k.fp) as real)
  }

  /** `get_recall`: tp / (tp + fn), the share of rows of room c+1 that are predicted as
      that room; `None` exactly when the test set has no row of room c+1. */
  function GetRecall(c: nat, m: Matrix): (r: Option<real>)
    requires IsMatrix(m) && c < CLASS_NUM
    ensures r.None? <==> Sum(m[c]) == 0
    ensures r.Some? ==> r.value == m[c][c] as real / Sum(m[c]) as real
    ensures r.Some? ==> 0.0 <= r.value <= 1.0
  {
    var k := GetTpFpTnFn(c, m);
    if k.tp + k.fn == 0 then None
    else
      RatioInUnit(k.tp, k.tp + k.fn);
      Some(k.tp as real / (k.tp + k.fn) as real)
  }

  /** Division by a positive number preserves order. */
  lemma DivideMonotone(a: real, b: real, s: real)
    requires a <= b && s > 0.0
    ensures a / s <= b / s
  {
    assert b / s - a / s == (b - a) / s;
  }

  /** The facts about 2·p·q/(p + q) for p = tp/pp and q = tp/ap, counts as reals with
      tp <= pp and tp <= ap: p + q is zero exactly when tp is, and otherwise the harmonic
      mean is 2tp/(pp + ap), positive and at most 1. */
  lemma F1Facts(tp: real, pp: real, ap: real, p: real, q: real)
    requires 0.0 <= tp <= pp && tp <= ap && 0.0 < pp && 0.0 < ap
    requires p == tp / pp && q == tp / ap
    ensures (p + q == 0.0) <==> tp == 0.0
    ensures tp > 0.0 ==> 2.0 * p * q / (p + q) == 2.0 * tp / (pp + ap) && 0.0 < 2.0 * tp / (pp + ap) <= 1.0
  {
    assert p * pp == tp && q * ap == tp;
    if tp > 0.0 {
      assert p > 0.0 && q > 0.0;
      assert 2.0 * p * q * (pp + ap) == 2.0 * tp * (p + q) by {
        assert p * q * pp == q * tp;
        assert p * q * ap == p * tp;
      }
      FractionsEqual(2.0 * p * q, p + q, 2.0 * tp, pp + ap);
      DivideMonotone(2.0 * tp, pp + ap, pp + ap);
    } else {
      assert p == 0.0 && q == 0.0;
    }
  }

  /** Two fractions with positive denominators are equal when their cross products are. */
  lemma FractionsEqual(a: real, b: real, c: real, d: real)
    requires b > 0.0 && d > 0.0 && a * d == c * b
    ensures a / b == c / d
  {
    assert a / b * (b * d) == a * d;
    assert c / d * (b * d) == c * b;
    MultiplyCancel(a / b, c / d, b * d);
    MultiplyCancel(c / d, a / b, b * d);
  }

  /** The harmonic mean of two non-negative values lies between them. */
  lemma HarmonicBetween(p: real, q: real)
    requires 0.0 <= p && 0.0 <= q && p + q > 0.0
    ensures (if p <= q then p else q) <= 2.0 * p * q / (p + q) <= (if p <= q then q else p)
  {
    if p <= q {
      HarmonicOrdered(p, q);
    } else {
      HarmonicOrdered(q, p);
      assert 2.0 * q * p == 2.0 * p * q;
    }
  }

  lemma HarmonicOrdered(lo: real, hi: real)
    requires 0.0 <= lo <= hi && 0.0 < hi
    ensures lo <= 2.0 * lo * hi / (lo + hi) <= hi
  {
    var s := lo + hi;
    var f := 2.0 * lo * hi / s;
    assert f * s == 2.0 * lo * hi;
    assert lo * s <= f * s by {
      assert f * s - lo * s == lo * (hi - lo);
      assert lo * (hi - lo) >= 0.0;
    }
    assert f * s <= hi * s by {
      assert hi * s - f * s == hi * (hi - lo);
      assert hi * (hi - lo) >= 0.0;
    }
    MultiplyCancel(lo, f, s);
    MultiplyCancel(f, hi, s);
  }

  /** Order survives cancelling a positive factor. */
  lemma MultiplyCancel(a: real, b: real, s: real)
    requires a * s <= b * s && s > 0.0
    ensures a <= b
  {
  }

  /** `get_f1`: 2·p·r/(p + r) from the precision p and recall r. When either is `None`,
      `2 * None` raises a TypeError that nothing catches; when both are defined and p + r
      is 0 (no true positive) it is `None`. The value equals 2tp / (2tp + fp + fn). */
  function GetF1(c: nat, m: Matrix): (r: Result<Option<real>>)
    requires IsMatrix(m) && c < CLASS_NUM
    ensures r.Ok? <==> Sum(Column(m, c)) > 0 && Sum(m[c]) > 0
    ensures r.Ok? || r.TypeError?
    ensures r.Ok? ==> (r.value.None? <==> m[c][c] == 0)
    ensures r.Ok? && r.value.Some? ==>
      r.value.value == 2.0 * m[c][c] as real / (Sum(Column(m, c)) as real + Sum(m[c]) as real)
    ensures r.Ok? && r.value.Some? ==> 0.0 < r.value.value <= 1.0
  {
    var p := GetPrecision(c, m);
    var q := GetRecall(c, m);
    var k := GetTpFpTnFn(c, m);
    assert k.tp <= Sum(Column(m, c)) && k.tp <= Sum(m[c]);
    if p.None? || q.None? then TypeError
    else if p.value + q.value == 0.0 then
      F1Facts(m[c][c] as real, Sum(Column(m, c)) as real, Sum(m[c]) as real, p.value, q.value);
      Ok(None)
    else
      F1Facts(m[c][c] as real, Sum(Column(m, c)) as real, Sum(m[c]) as real, p.value, q.value);
      Ok(Some(2.0 * p.value * q.value / (p.value + q.value)))
  }

  /** F1, when defined, lies between precision and recall. */
  lemma F1BetweenPrecisionRecall(c: nat, m: Matrix)
    requires IsMatrix(m) && c < CLASS_NUM
    requires GetF1(c, m).Ok? && GetF1(c, m).value.Some?
    ensures GetPrecision(c, m).Some? && GetRecall(c, m).Some?
    ensures var p, q := GetPrecision(c, m).value, GetRecall(c, m).value;
      (if p <= q then p else q) <= GetF1(c, m).value.value <= (if p <= q then q else p)
  {
    var p, q := GetPrecision(c, m).value, GetRecall(c, m).value;
    var f := GetF1(c, m).value.value;
    assert m[c][c] > 0;
    assert p > 0.0;
    assert f == 2.0 * p * q / (p + q);
    HarmonicBetween(p, q);
    if p <= q {
      assert p <= f <= q;
    } else {
      assert q <= f <= p;
    }
  }

  /** `get_accuracy`: (tp + tn) / (tp + fp + tn + fn) = trace / (trace + the off-diagonal
      cells of row c and column c). `None` exactly when that denominator is 0. */
  function GetAccuracy(c: nat, m: Matrix): (r: Option<real>)
    requires IsMatrix(m) && c < CLASS_NUM
    ensures r.None? <==> Trace(m) == 0 && Sum(m[c]) == 0 && Sum(Column(m, c)) == 0
    ensures r.Some? ==> Trace(m) + Sum(m[c]) + Sum(Column(m, c)) - 2 * m[c][c] > 0
    ensures r.Some? ==>
      r.value == Trace(m) as real / (Trace(m) + Sum(m[c]) + Sum(Column(m, c)) - 2 * m[c][c]) as real
    ensures r.Some? ==> 0.0 <= r.value <= 1.0
  {
    var k := GetTpFpTnFn(c, m);
    var total := k.tp + k.fp + k.tn + k.fn;
    assert total == Trace(m) + Sum(m[c]) + Sum(Column(m, c)) - 2 * m[c][c];
    assert k.tp + k.tn == Trace(m);
    if total == 0 then None
    else
      RatioInUnit(k.tp + k.tn, total);
      Some((k.tp + k.tn) as real / total as real)
  }

  /** tp + fp + tn + fn never exceeds the number of counted rows; it falls short by the
      off-diagonal cells outside row c and column c. */
  lemma CountsAtMostTotal(c: nat, m: Matrix)
    requires IsMatrix(m) && c < CLASS_NUM
    ensures var k := GetTpFpTnFn(c, m); k.tp + k.fp + k.tn + k.fn <= Total(m)
  {
    var k := GetTpFpTnFn(c, m);
    var rows := RowSums(m);
    SumExceptSplit(rows, c);
    forall i | 0 <= i < CLASS_NUM && i != c ensures rows[i] >= Diagonal(m)[i] + Column(m, c)[i] {
      SumExceptSplit(m[i], i);
      SumExceptAtLeast(m[i], i, c);
    }
    SumExceptDominates(rows, Diagonal(m), Column(m, c), c);
  }

  /** The tn formula in action: a single row of room 2 predicted as room 3 is counted by
      none of tp, fp, tn, fn for room 1, so room 1's accuracy is undefined although the
      matrix is not empty. */
  lemma OffDiagonalUncounted()
    ensures var m := [[0, 0, 0, 0], [0, 0, 1, 0], [0, 0, 0, 0], [0, 0, 0, 0]];
      && IsMatrix(m) && Total(m) == 1
      && GetTpFpTnFn(0, m) == Counts(0, 0, 0, 0)
      && GetAccuracy(0, m) == None
  {
    var m := [[0, 0, 0, 0], [0, 0, 1, 0], [0, 0, 0, 0], [0, 0, 0, 0]];
    Sum4(m[0]); Sum4(m[1]); Sum4(m[2]); Sum4(m[3]);
    Sum4(RowSums(m));
    Sum4(Diagonal(m));
    Sum4(Column(m, 0));
  }

  /** The worked example: [[3, 1], [0, 4]] in the top-left corner, room index 0. */
  lemma WorkedExample()
    ensures var m := [[3, 1, 0, 0], [0, 4, 0, 0], [0, 0, 0, 0], [0, 0, 0, 0]];
      && IsMatrix(m)
      && GetTpFpTnFn(0, m) == Counts(3, 0, 4, 1)
      && GetPrecision(0, m) == Some(1.0)
      && GetRecall(0, m) == Some(0.75)
      && GetAccuracy(0, m) == Some(0.875)
  {
    var m := [[3, 1, 0, 0], [0, 4, 0, 0], [0, 0, 0, 0], [0, 0, 0, 0]];
    Sum4(m[0]);
    Sum4(Diagonal(m));
    Sum4(Column(m, 0));
  }

  /** All four metrics of a fold are defined (so the fold does not raise) exactly when the
      room has at least one true positive. */
  lemma AllDefinedIff(c: nat, m: Matrix)
    requires IsMatrix(m) && c < CLASS_NUM
    ensures (&& GetPrecision(c, m).Some? && GetRecall(c, m).Some?
             && GetF1(c, m).Ok? && GetF1(c, m).value.Some? && GetAccuracy(c, m).Some?)
        <==> m[c][c] > 0
  {
    var k := GetTpFpTnFn(c, m);
    if m[c][c] > 0 {
      assert Sum(Column(m, c)) > 0 && Sum(m[c]) > 0;
      assert k.tp + k.tn > 0;
    }
  }
}
