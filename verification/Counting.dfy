/** How many elements of a sequence satisfy a predicate. */
module Counting {
  function Count<T>(xs: seq<T>, p: T -> bool): nat {
    if xs == [] then 0 else (if p(xs[0]) then 1 else 0) + Count(xs[1..], p)
  }

  lemma {:induction false} CountBoth<T>(xs: seq<T>, ys: seq<T>, p: T -> bool)
    ensures Count(xs + ys, p) == Count(xs, p) + Count(ys, p)
  {
    if xs == [] {
      assert xs + ys == ys;
    } else {
      assert (xs + ys)[0] == xs[0] && (xs + ys)[1..] == xs[1..] + ys;
      CountBoth(xs[1..], ys, p);
    }
  }

  lemma CountOne<T>(x: T, p: T -> bool)
    ensures Count([x], p) == if p(x) then 1 else 0
    ensures Count([], p) == 0
  {
    assert [x][1..] == [];
  }

  /** One element is replaced by others. */
  lemma CountReplaced<T>(xs: seq<T>, k: nat, next: seq<T>, p: T -> bool)
    requires k < |xs|
    ensures Count(xs[..k] + next + xs[k + 1..], p) + (if p(xs[k]) then 1 else 0) == Count(xs, p) + Count(next, p)
  {
    assert xs == xs[..k] + [xs[k]] + xs[k + 1..];
    CountBoth(xs[..k] + [xs[k]], xs[k + 1..], p);
    CountBoth(xs[..k], [xs[k]], p);
    CountBoth(xs[..k] + next, xs[k + 1..], p);
    CountBoth(xs[..k], next, p);
    CountOne(xs[k], p);
    hide Count;
  }
}
