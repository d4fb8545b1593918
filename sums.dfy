/** Sums of counts, the building block of the matrix statistics. */
module Sums {

  /** The sum of a sequence of counts, accumulated from the left as Python's `sum` does. */
  function Sum(s: seq<nat>): nat
  {
    if s == [] then 0 else Sum(s[..|s| - 1]) + s[|s| - 1]
  }

  /** `sum(s[i] for i in range(len(s)) if i != c)`. */
  function SumExcept(s: seq<nat>, c: int): nat
  {
    if s == [] then 0
    else SumExcept(s[..|s| - 1], c) + (if |s| - 1 == c then 0 else s[|s| - 1])
  }

  /** Element-wise sum of two sequences of the same length. */
  function Plus(s: seq<nat>, t: seq<nat>): (r: seq<nat>)
    requires |s| == |t|
    ensures |r| == |s| && forall i :: 0 <= i < |r| ==> r[i] == s[i] + t[i]
  {
    seq(|s|, i requires 0 <= i < |s| => s[i] + t[i])
  }

  /** Leaving out index c loses exactly s[c]. */
  lemma {:induction false} SumExceptSplit(s: seq<nat>, c: int)
    ensures SumExcept(s, c) + (if 0 <= c < |s| then s[c] else 0) == Sum(s)
  {
    if s != [] {
      var init := s[..|s| - 1];
      SumExceptSplit(init, c);
      if 0 <= c < |init| {
        assert init[c] == s[c];
      }
    }
  }

  /** Any entry other than the one left out is part of the sum. */
  lemma {:induction false} SumExceptAtLeast(s: seq<nat>, c: int, b: nat)
    requires b < |s| && b != c
    ensures SumExcept(s, c) >= s[b]
  {
    var init := s[..|s| - 1];
    if b < |init| {
      SumExceptAtLeast(init, c, b);
      assert init[b] == s[b];
    }
  }

  /** Pointwise domination carries over to the sums that leave out index c. */
  lemma {:induction false} SumExceptDominates(s: seq<nat>, t: seq<nat>, u: seq<nat>, c: int)
    requires |s| == |t| == |u|
    requires forall i :: 0 <= i < |s| && i != c ==> s[i] >= t[i] + u[i]
    ensures SumExcept(s, c) >= SumExcept(t, c) + SumExcept(u, c)
  {
    if s != [] {
      var n := |s| - 1;
      SumExceptDominates(s[..n], t[..n], u[..n], c);
    }
  }

  /** Incrementing one entry increments the sum. */
  lemma {:induction false} SumBump(s: seq<nat>, j: nat)
    requires j < |s|
    ensures Sum(s[j := s[j] + 1]) == Sum(s) + 1
  {
    var t := s[j := s[j] + 1];
    if j == |s| - 1 {
      assert t[..|t| - 1] == s[..|s| - 1];
    } else {
      assert t[..|t| - 1] == s[..|s| - 1][j := s[j] + 1];
      SumBump(s[..|s| - 1], j);
    }
  }

  /** The sum is additive over an element-wise sum. */
  lemma {:induction false} SumPlus(s: seq<nat>, t: seq<nat>)
    requires |s| == |t|
    ensures Sum(Plus(s, t)) == Sum(s) + Sum(t)
  {
    if s != [] {
      var n := |s| - 1;
      assert Plus(s, t)[..n] == Plus(s[..n], t[..n]);
      SumPlus(s[..n], t[..n]);
    }
  }

  /** A sequence of zeros sums to zero. */
  lemma {:induction false} SumZeros(s: seq<nat>)
    requires forall i :: 0 <= i < |s| ==> s[i] == 0
    ensures Sum(s) == 0
  {
    if s != [] {
      SumZeros(s[..|s| - 1]);
    }
  }

  /** The sum of four counts, written out. */
  lemma Sum4(s: seq<nat>)
    requires |s| == 4
    ensures Sum(s) == s[0] + s[1] + s[2] + s[3]
  {
    assert s[..3][..2] == s[..2] && s[..2][..1] == s[..1] && s[..1][..0] == [];
    assert Sum(s[..1]) == s[0];
    assert Sum(s[..2]) == s[0] + s[1];
    assert Sum(s[..3]) == s[0] + s[1] + s[2];
  }

  /** A ratio of counts with a positive denominator that is at least the numerator. */
  lemma RatioInUnit(a: nat, b: nat)
    requires a <= b && 0 < b
    ensures 0.0 <= a as real / b as real <= 1.0
  {
  }
}
