/** The array operations the game applies to its lists: `filter` by a
    predicate, `filter` by position (deleting one index), and a reordering
    that stands for the random shuffle. */
module Seqs {

  /** `xs.filter(keep)`: the elements of `xs` that satisfy `keep`, in their
      original order. */
  function Filter<T(!new)>(xs: seq<T>, keep: T -> bool): (r: seq<T>)
    ensures |r| <= |xs|
    ensures forall i :: 0 <= i < |r| ==> r[i] in xs && keep(r[i])
    ensures forall i :: 0 <= i < |xs| && keep(xs[i]) ==> xs[i] in r
    ensures forall x {:trigger multiset(r)[x]} :: multiset(r)[x] == if keep(x) then multiset(xs)[x] else 0
  {
    if xs == [] then []
    else
      var rest := Filter(xs[1..], keep);
      var r := if keep(xs[0]) then [xs[0]] + rest else rest;
      FilterCountStep(xs, rest, r, keep);
      r
  }

  /** One step of `Filter`'s recursion keeps the element counts right. */
  lemma FilterCountStep<T(!new)>(xs: seq<T>, rest: seq<T>, r: seq<T>, keep: T -> bool)
    requires xs != []
    requires forall x {:trigger multiset(rest)[x]} :: multiset(rest)[x] == if keep(x) then multiset(xs[1..])[x] else 0
    requires r == if keep(xs[0]) then [xs[0]] + rest else rest
    ensures forall x {:trigger multiset(r)[x]} :: multiset(r)[x] == if keep(x) then multiset(xs)[x] else 0
  {
    assert xs == [xs[0]] + xs[1..];
    assert multiset(xs) == multiset{xs[0]} + multiset(xs[1..]);
    if keep(xs[0]) {
      assert multiset(r) == multiset{xs[0]} + multiset(rest);
    }
  }

  /** Filtering works piece by piece: the kept elements of a concatenation
      are those of the first part followed by those of the second, so the
      filter never reorders what it keeps. */
  lemma {:induction false} FilterKeepsOrder<T(!new)>(a: seq<T>, b: seq<T>, keep: T -> bool)
    ensures Filter(a + b, keep) == Filter(a, keep) + Filter(b, keep)
    decreases |a|
  {
    if a == [] {
      assert a + b == b;
    } else {
      assert (a + b)[0] == a[0] && (a + b)[1..] == a[1..] + b;
      FilterKeepsOrder(a[1..], b, keep);
    }
  }

  /** `xs.filter((_, j) => j !== i)`: deletes position `i` when it exists and
      keeps every other element in order; any other `i` leaves `xs` alone. */
  function DropIndex<T>(xs: seq<T>, i: int): (r: seq<T>)
    ensures 0 <= i < |xs| ==> |r| == |xs| - 1
    ensures 0 <= i < |xs| ==> forall j :: 0 <= j < i ==> r[j] == xs[j]
    ensures 0 <= i < |xs| ==> forall j :: i <= j < |r| ==> r[j] == xs[j + 1]
    ensures !(0 <= i < |xs|) ==> r == xs
  {
    if xs == [] then []
    else if i == 0 then xs[1..]
    else [xs[0]] + DropIndex(xs[1..], i - 1)
  }

  /** Deleting one position removes exactly that element's occurrence. */
  lemma {:induction false} DropIndexMultiset<T>(xs: seq<T>, i: nat)
    requires i < |xs|
    ensures multiset(DropIndex(xs, i)) + multiset{xs[i]} == multiset(xs)
  {
    var tail := xs[1..];
    assert xs == [xs[0]] + tail;
    if i > 0 {
      DropIndexMultiset(tail, i - 1);
      assert tail[i - 1] == xs[i];
      assert DropIndex(xs, i) == [xs[0]] + DropIndex(tail, i - 1);
      calc {
        multiset(DropIndex(xs, i)) + multiset{xs[i]};
        multiset{xs[0]} + (multiset(DropIndex(tail, i - 1)) + multiset{tail[i - 1]});
        multiset{xs[0]} + multiset(tail);
      }
    }
  }

  /** Every pair of positions names an element of a list of length `n`. */
  predicate SwapsFit(swaps: seq<(nat, nat)>, n: nat) {
    forall k :: 0 <= k < |swaps| ==> swaps[k].0 < n && swaps[k].1 < n
  }

  /** Exchanges the elements at positions `i` and `j`. */
  function Swap<T>(xs: seq<T>, i: nat, j: nat): (r: seq<T>)
    requires i < |xs| && j < |xs|
    ensures |r| == |xs| && r[i] == xs[j] && r[j] == xs[i]
    ensures forall k :: 0 <= k < |xs| && k != i && k != j ==> r[k] == xs[k]
    ensures multiset(r) == multiset(xs)
  {
    xs[i := xs[j]][j := xs[i]]
  }

  /** A reordering of `xs` produced by exchanging the given pairs of
      positions one after another. Every permutation is a product of such
      exchanges, so any order the random shuffle can produce is described
      by some list of swaps; the result always holds the same elements. */
  function Shuffle<T>(xs: seq<T>, swaps: seq<(nat, nat)>): (r: seq<T>)
    requires SwapsFit(swaps, |xs|)
    ensures |r| == |xs|
    ensures multiset(r) == multiset(xs)
    decreases |swaps|
  {
    if swaps == [] then xs
    else Shuffle(Swap(xs, swaps[0].0, swaps[0].1), swaps[1..])
  }

  /** No element occurs twice. */
  predicate NoRepeats<T(==)>(h: seq<T>) {
    forall i, j :: 0 <= i < j < |h| ==> h[i] != h[j]
  }
}
