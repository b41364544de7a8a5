/** Lists of table entries without repetition. */
module Lists {
  predicate Distinct(xs: seq<nat>) { forall i, j :: 0 <= i < j < |xs| ==> xs[i] != xs[j] }

  function Without(xs: seq<nat>, p: nat): (r: seq<nat>)
    ensures forall y :: y in r <==> y in xs && y != p
  {
    if xs == [] then []
    else
      var r := Without(xs[..|xs| - 1], p);
      assert xs == xs[..|xs| - 1] + [xs[|xs| - 1]];
      if xs[|xs| - 1] == p then r else r + [xs[|xs| - 1]]
  }

  lemma {:induction false} WithoutOther(xs: seq<nat>, p: nat)
    requires p !in xs
    ensures Without(xs, p) == xs
  {
    if xs != [] {
      WithoutOther(xs[..|xs| - 1], p);
      assert xs == xs[..|xs| - 1] + [xs[|xs| - 1]];
    }
  }

  lemma {:induction false} WithoutDistinct(xs: seq<nat>, p: nat)
    requires Distinct(xs)
    ensures Distinct(Without(xs, p))
  {
    if xs != [] {
      WithoutDistinct(xs[..|xs| - 1], p);
      assert xs[|xs| - 1] !in xs[..|xs| - 1];
    }
  }

  lemma {:induction false} WithoutLast(xs: seq<nat>, p: nat, x: nat)
    ensures Without(xs + [x], p) == if x == p then Without(xs, p) else Without(xs, p) + [x]
  {
    assert (xs + [x])[..|xs|] == xs;
  }

  lemma {:induction false} WithoutAt(xs: seq<nat>, k: nat)
    requires Distinct(xs) && k < |xs|
    ensures Without(xs, xs[k]) == xs[..k] + xs[k + 1..]
  {
    hide Without;
    var rest, x := xs[..|xs| - 1], xs[|xs| - 1];
    assert xs == rest + [x];
    WithoutLast(rest, xs[k], x);
    if k == |xs| - 1 {
      WithoutOther(rest, xs[k]);
    } else {
      WithoutAt(rest, k);
      assert rest[k + 1..] + [x] == xs[k + 1..];
    }
  }

  lemma WithoutFirst(xs: seq<nat>, p: nat)
    requires p !in xs && Distinct(xs)
    ensures Without([p] + xs, p) == xs
  {
    var ys := [p] + xs;
    WithoutAt(ys, 0);
    assert ys[..0] + ys[1..] == xs;
  }
}
