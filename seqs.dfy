/** Order-preserving selection from a sequence: the shape shared by pandas'
    `dropna(how="all")` (select rows) and the list comprehension that keeps the
    expected columns (select column names). */
module Seqs {

  /** The elements of `xs` that satisfy `keep`, in their original order. */
  function Filter<T>(xs: seq<T>, keep: T -> bool): (r: seq<T>)
    ensures |r| <= |xs|
    ensures forall x | x in r :: keep(x)
    decreases |xs|
  {
    if |xs| == 0 then []
    else Filter(xs[..|xs| - 1], keep) + (if keep(xs[|xs| - 1]) then [xs[|xs| - 1]] else [])
  }

  /** The positions of the elements of `xs` that satisfy `keep`, ascending. */
  function Positions<T>(xs: seq<T>, keep: T -> bool): (r: seq<nat>)
    ensures forall j | 0 <= j < |r| :: r[j] < |xs| && keep(xs[r[j]])
    ensures forall j, k | 0 <= j < k < |r| :: r[j] < r[k]
    ensures forall i | 0 <= i < |xs| :: i in r <==> keep(xs[i])
    decreases |xs|
  {
    if |xs| == 0 then []
    else Positions(xs[..|xs| - 1], keep) + (if keep(xs[|xs| - 1]) then [|xs| - 1] else [])
  }

  /** The elements of `xs` at the positions `idx`, in the order of `idx`. */
  function Pick<T>(xs: seq<T>, idx: seq<nat>): (r: seq<T>)
    requires forall j | 0 <= j < |idx| :: idx[j] < |xs|
    ensures |r| == |idx|
    ensures forall j | 0 <= j < |idx| :: r[j] == xs[idx[j]]
  {
    seq(|idx|, j requires 0 <= j < |idx| => xs[idx[j]])
  }

  /** `Filter` keeps exactly the elements at `Positions`: it is the subsequence
      of `xs` made of every element satisfying `keep`, and of no other. */
  lemma {:induction false} FilterAtPositions<T>(xs: seq<T>, keep: T -> bool)
    ensures |Filter(xs, keep)| == |Positions(xs, keep)|
    ensures Filter(xs, keep) == Pick(xs, Positions(xs, keep))
    decreases |xs|
  {
    if |xs| > 0 {
      var init := xs[..|xs| - 1];
      FilterAtPositions(init, keep);
      var p, f := Positions(init, keep), Filter(init, keep);
      var P, F := Positions(xs, keep), Filter(xs, keep);
      assert |P| == |F|;
      forall j | 0 <= j < |P| ensures F[j] == xs[P[j]] {
        if j < |p| {
          assert F[j] == f[j] == init[p[j]];
        }
      }
    }
  }

  /** `Filter` only keeps elements of `xs`. */
  lemma {:induction false} FilterSubset<T>(xs: seq<T>, keep: T -> bool)
    ensures forall x | x in Filter(xs, keep) :: x in xs
    decreases |xs|
  {
    if |xs| > 0 {
      var init := xs[..|xs| - 1];
      FilterSubset(init, keep);
      assert forall x | x in init :: x in xs;
    }
  }

  /** Filtering a sequence whose every element is kept changes nothing. */
  lemma {:induction false} FilterAllKept<T>(xs: seq<T>, keep: T -> bool)
    requires forall i | 0 <= i < |xs| :: keep(xs[i])
    ensures Filter(xs, keep) == xs
    decreases |xs|
  {
    if |xs| > 0 {
      var init, last := xs[..|xs| - 1], xs[|xs| - 1];
      FilterAllKept(init, keep);
      assert init + [last] == xs;
    }
  }

  /** An ascending sequence of naturals below `n` has at most `n` elements. */
  lemma {:induction false} AscendingBelowBound(p: seq<nat>, n: nat)
    requires forall j, k | 0 <= j < k < |p| :: p[j] < p[k]
    requires forall j | 0 <= j < |p| :: p[j] < n
    ensures |p| <= n
    decreases |p|
  {
    if |p| > 0 {
      var init := p[..|p| - 1];
      assert p[|p| - 1] < n;
      assert forall j | 0 <= j < |init| :: init[j] < p[|p| - 1];
      AscendingBelowBound(init, n - 1);
    }
  }
}
