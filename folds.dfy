/** Cutting the data set into a test window and a training set, and the fold windows. */
module Folds {
  import opened Wrappers

  function Min(a: int, b: int): int
  {
    if a <= b then a else b
  }

  /** `separate_data(all_db_list, start, end, size)`: the test set is the slice
      `[start:end]` (clamped to the data, as Python slices are); the training set is what
      lies after the window when the window starts at 0, what lies before it when it ends at
      `size`, and otherwise the part before followed by the part after, joined with
      `np.concatenate`. The rows are one-dimensional arrays, so a non-empty part before the
      window is two-dimensional; when the window runs past the end of the data the part after
      it is the empty list `[]`, which numpy reads as one-dimensional, and the join raises a
      ValueError. */
  function SeparateData<T>(db: seq<T>, start: nat, end: nat, size: nat): (r: Result<(seq<T>, seq<T>)>)
    requires start <= end && size == |db|
    ensures r.Ok? || r.ValueError?
    ensures r.ValueError? <==> start != 0 && end > size && size > 0
    ensures r.Ok? ==> r.value.0 == db[Min(start, |db|)..Min(end, |db|)]
    ensures r.Ok? ==> r.value.1 == db[..Min(start, |db|)] + db[Min(end, |db|)..]
  {
    var lo, hi := Min(start, |db|), Min(end, |db|);
    var testSet := db[lo..hi];
    if start == 0 then
      assert db[..lo] == [];
      Ok((testSet, db[hi..]))
    else if end == size then
      assert db[hi..] == [];
      Ok((testSet, db[..lo]))
    else if end > size && size > 0 then ValueError
    else Ok((testSet, db[..lo] + db[hi..]))
  }

  /** Putting the test window back between the two parts of the training set gives the data
      set again: no row is lost or repeated. */
  lemma SeparateDataRestores<T>(db: seq<T>, start: nat, end: nat, size: nat)
    requires start <= end && size == |db| && SeparateData(db, start, end, size).Ok?
    ensures var (test, training) := SeparateData(db, start, end, size).value;
      var lo := Min(start, |db|);
      && training[..lo] + test + training[lo..] == db
      && multiset(test) + multiset(training) == multiset(db)
  {
    var lo, hi := Min(start, |db|), Min(end, |db|);
    var (test, training) := SeparateData(db, start, end, size).value;
    assert training[..lo] == db[..lo] && training[lo..] == db[hi..];
    assert db[..lo] + test + db[hi..] == db;
    calc {
      multiset(db);
    ==
      multiset(db[..lo] + test + db[hi..]);
    ==
      multiset(db[..lo]) + multiset(test) + multiset(db[hi..]);
    ==
      multiset(test) + multiset(training);
    }
  }

  /** `range(lo, hi, step)` for a positive step: lo, lo + step, ... while below hi. */
  function Range(lo: nat, hi: nat, step: nat): (r: seq<nat>)
    requires step > 0
    ensures forall i :: 0 <= i < |r| ==> lo <= r[i] < hi
    decreases hi - lo
  {
    if lo >= hi then [] else [lo] + Range(lo + step, hi, step)
  }

  /** Consecutive windows [start, start + step) of a range never overlap. */
  lemma {:induction false} WindowsDisjoint(lo: nat, hi: nat, step: nat, i: nat, j: nat)
    requires step > 0 && i < j < |Range(lo, hi, step)|
    ensures Range(lo, hi, step)[i] + step <= Range(lo, hi, step)[j]
    decreases hi - lo
  {
    var rest := Range(lo + step, hi, step);
    assert Range(lo, hi, step) == [lo] + rest;
    if i == 0 {
      assert rest[j - 1] >= lo + step;
    } else {
      WindowsDisjoint(lo + step, hi, step, i - 1, j - 1);
    }
  }

  /** Every index of [lo, hi) lies in the window of some start of the range. */
  lemma {:induction false} WindowsCover(lo: nat, hi: nat, step: nat, x: nat)
    requires step > 0 && lo <= x < hi
    ensures exists i :: 0 <= i < |Range(lo, hi, step)| && Range(lo, hi, step)[i] <= x < Range(lo, hi, step)[i] + step
    decreases hi - lo
  {
    var r := Range(lo, hi, step);
    var rest := Range(lo + step, hi, step);
    assert r == [lo] + rest;
    if x < lo + step {
      assert r[0] <= x < r[0] + step;
    } else {
      WindowsCover(lo + step, hi, step, x);
      var i :| 0 <= i < |rest| && rest[i] <= x < rest[i] + step;
      assert r[i + 1] == rest[i];
    }
  }

  /** The range has ceil((hi - lo) / step) elements: enough windows of width step to reach
      hi, and one fewer would not. */
  lemma {:induction false} RangeLength(lo: nat, hi: nat, step: nat)
    requires step > 0
    ensures |Range(lo, hi, step)| * step >= hi - lo
    ensures lo < hi ==> (|Range(lo, hi, step)| - 1) * step < hi - lo
    decreases hi - lo
  {
    if lo < hi {
      RangeLength(lo + step, hi, step);
      var n := |Range(lo + step, hi, step)|;
      assert |Range(lo, hi, step)| == n + 1;
      assert (n + 1) * step == n * step + step;
    }
  }

  /** With hi - lo = k * step the range has exactly k elements. */
  lemma {:induction false} RangeExactLength(lo: nat, hi: nat, step: nat, k: nat)
    requires step > 0 && hi - lo == k * step && lo <= hi
    ensures |Range(lo, hi, step)| == k
    decreases k
  {
    if k > 0 {
      assert k * step == (k - 1) * step + step;
      RangeExactLength(lo + step, hi, step, k - 1);
    }
  }

  /** Consecutive starts of a range are one step apart. */
  lemma {:induction false} RangeNext(lo: nat, hi: nat, step: nat, j: nat)
    requires step > 0 && j + 1 < |Range(lo, hi, step)|
    ensures Range(lo, hi, step)[j + 1] == Range(lo, hi, step)[j] + step
    decreases hi - lo
  {
    var rest := Range(lo + step, hi, step);
    assert Range(lo, hi, step) == [lo] + rest;
    if j > 0 {
      RangeNext(lo + step, hi, step, j - 1);
    }
  }

  /** The last of the k starts of range(lo, hi, step) is lo + (k - 1)·step. */
  lemma {:induction false} RangeLast(lo: nat, hi: nat, step: nat)
    requires step > 0 && lo < hi
    ensures var r := Range(lo, hi, step); |r| > 0 && r[|r| - 1] == lo + (|r| - 1) * step
    decreases hi - lo
  {
    var r := Range(lo, hi, step);
    var rest := Range(lo + step, hi, step);
    assert r == [lo] + rest;
    if lo + step < hi {
      RangeLast(lo + step, hi, step);
      assert r[|r| - 1] == rest[|rest| - 1];
      assert (|rest| - 1) * step + step == |rest| * step;
    }
  }

  /** A multiple of step leaves no remainder. */
  lemma MultipleHasNoRemainder(k: nat, step: nat)
    requires step > 0
    ensures (k * step) % step == 0
  {
    var q, rem := (k * step) / step, (k * step) % step;
    assert rem == (k - q) * step;
    if k - q >= 1 {
      assert false;
    } else if k - q <= -1 {
      assert false;
    }
  }

  /** With 0 < step < n, range(0, n, step) has at least two starts, and the window of the
      last one ends at (number of starts)·step. */
  lemma LastWindowEnd(n: nat, step: nat)
    requires 0 < step < n
    ensures var r := Range(0, n, step); |r| >= 2 && r[|r| - 1] + step == |r| * step
  {
    var r := Range(0, n, step);
    var k := |r|;
    RangeLength(0, n, step);
    RangeLast(0, n, step);
    assert (k - 1) * step + step == k * step;
  }

  /** A remainder of 0 makes n the product of its quotient and the divisor. */
  lemma DividesExactly(n: nat, step: nat)
    requires step > 0 && n % step == 0
    ensures n == (n / step) * step
  {
  }

  /** The last window of range(0, n, step), 0 < step < n, ends inside the data exactly when
      step divides n. */
  lemma LastFitsIffDivides(n: nat, step: nat)
    requires 0 < step < n
    ensures var r := Range(0, n, step); |r| >= 2 && (r[|r| - 1] + step <= n <==> n % step == 0)
  {
    var k := |Range(0, n, step)|;
    LastWindowEnd(n, step);
    if k * step <= n {
      RangeLength(0, n, step);
      MultipleHasNoRemainder(k, step);
    }
    if n % step == 0 {
      DividesExactly(n, step);
      RangeExactLength(0, n, step, n / step);
    }
  }

  /** Of the windows of range(0, n, step) with 0 < step < n, the last one, which does not
      start at 0, ends inside the data exactly when step divides n; every earlier window
      ends before the next start. */
  lemma LastWindowFits(n: nat, step: nat)
    requires 0 < step < n
    ensures var r := Range(0, n, step);
      && |r| >= 2 && r[|r| - 1] > 0
      && (r[|r| - 1] + step <= n <==> n % step == 0)
      && forall j :: 0 <= j < |r| - 1 ==> r[j] + step < n
  {
    var r := Range(0, n, step);
    var k := |r|;
    LastFitsIffDivides(n, step);
    RangeNext(0, n, step, k - 2);
    forall j | 0 <= j < k - 1 ensures r[j] + step < n {
      RangeNext(0, n, step, j);
    }
  }

  /** How many rows the test windows starting at `starts` hold, in a data set of n rows. */
  function WindowSizes(starts: seq<nat>, step: nat, n: nat): nat
  {
    if starts == [] then 0
    else Min(starts[0] + step, n) - Min(starts[0], n) + WindowSizes(starts[1..], step, n)
  }

  lemma {:induction false} WindowSizesSnoc(starts: seq<nat>, s: nat, step: nat, n: nat)
    ensures WindowSizes(starts + [s], step, n) == WindowSizes(starts, step, n) + Min(s + step, n) - Min(s, n)
  {
    if starts != [] {
      assert (starts + [s])[1..] == starts[1..] + [s];
      WindowSizesSnoc(starts[1..], s, step, n);
    }
  }

  /** The windows of a non-empty list of starts: those of all starts but the last, and the
      last one. */
  lemma WindowSizesLast(starts: seq<nat>, step: nat, n: nat)
    requires starts != []
    ensures var k := |starts| - 1;
      WindowSizes(starts, step, n) == WindowSizes(starts[..k], step, n) + Min(starts[k] + step, n) - Min(starts[k], n)
  {
    var k := |starts| - 1;
    assert starts == starts[..k] + [starts[k]];
    WindowSizesSnoc(starts[..k], starts[k], step, n);
  }

  /** The windows of range(lo, n, step) hold n - lo rows together. */
  lemma {:induction false} WindowSizesOfRange(lo: nat, n: nat, step: nat)
    requires step > 0 && lo <= n
    ensures WindowSizes(Range(lo, n, step), step, n) == n - lo
    decreases n - lo
  {
    if lo < n {
      var r := Range(lo, n, step);
      assert r[1..] == Range(lo + step, n, step);
      if lo + step <= n {
        WindowSizesOfRange(lo + step, n, step);
      } else {
        assert Range(lo + step, n, step) == [];
      }
    }
  }

  /** A data set of 19 rows gives step 1 and 19 folds, more than the ten the averages
      divide by. */
  lemma NineteenRowsNineteenFolds()
    ensures 19 / 10 == 1 && |Range(0, 19, 19 / 10)| == 19
  {
    RangeExactLength(0, 19, 1, 19);
  }
}
