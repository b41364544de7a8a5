/** The route for a destination: the most specific one, whatever the order of the slots. */
module RouteLookup {
  import opened Bits
  import opened Routes

  predicate Covers(k: Key, dest: bv32) { dest & k.1 == k.0 }

  predicate Matches(r: Route, dest: bv32) { r.used && Covers(KeyOf(r), dest) }

  /** Slot j is the first of those with the most mask bits among the matching slots below k. */
  predicate BestBelow(t: seq<Route>, dest: bv32, k: nat, j: nat) {
    && k <= |t| && j < k && Matches(t[j], dest)
    && (forall i :: 0 <= i < k && Matches(t[i], dest) ==> Ones(t[i].mask) <= Ones(t[j].mask))
    && (forall i :: 0 <= i < j && Matches(t[i], dest) ==> Ones(t[i].mask) < Ones(t[j].mask))
  }

  /** The slot the scan holds after the first k slots. */
  function Scan(t: seq<Route>, dest: bv32, k: nat): (r: Option<nat>)
    requires k <= |t|
    ensures r.Some? ==> BestBelow(t, dest, k, r.value)
    ensures r.None? ==> forall i :: 0 <= i < k ==> !Matches(t[i], dest)
  {
    hide Ones, Matches;
    if k == 0 then None
    else
      var r := Scan(t, dest, k - 1);
      if Matches(t[k - 1], dest) && (r.None? || Ones(t[k - 1].mask) > Ones(t[r.value].mask)) then Some(k - 1) else r
  }

  function Lookup(t: seq<Route>, dest: bv32): (r: Option<nat>)
    ensures r.Some? ==> r.value < |t| && BestBelow(t, dest, |t|, r.value)
    ensures r.None? ==> forall i :: 0 <= i < |t| ==> !Matches(t[i], dest)
  {
    Scan(t, dest, |t|)
  }

  // ---- The longest prefix ----

  /** Among the routes of a map that match, the one whose mask strictly contains every other. */
  ghost predicate Longest(m: RouteMap, dest: bv32, k: Key) {
    && k in m && Covers(k, dest)
    && forall o :: o in m && o != k && Covers(o, dest) ==> Within(o.1, k.1) && o.1 != k.1
  }

  lemma {:induction false} MoreSpecific(t: seq<Route>, dest: bv32, j: nat, i: nat)
    requires Inv(t) && AllContiguous(t) && BestBelow(t, dest, |t|, j) && i < |t| && i != j && Matches(t[i], dest)
    ensures Within(t[i].mask, t[j].mask) && t[i].mask != t[j].mask
  {
    hide Ones, Within, Contiguous, Inv;
    OnlySlot(t, j);
    SameNetwork(t[i], t[j], dest);
    ContiguousNested(t[i].mask, t[j].mask);
    if Within(t[j].mask, t[i].mask) { WithinFewer(t[j].mask, t[i].mask); }
  }

  lemma SameNetwork(a: Route, b: Route, dest: bv32)
    requires Matches(a, dest) && Matches(b, dest)
    ensures a.mask == b.mask ==> KeyOf(a) == KeyOf(b)
  {
  }

  lemma FoundIsLongest(t: seq<Route>, dest: bv32, j: nat)
    requires Inv(t) && AllContiguous(t) && BestBelow(t, dest, |t|, j)
    ensures Longest(View(t), dest, KeyOf(t[j]))
  {
    hide Ones, Within, Contiguous, Inv, View, Covers, AllContiguous;
    InvKeysOnce(t);
    ViewHolds(t);
    forall o | o in View(t) && o != KeyOf(t[j]) && Covers(o, dest) ensures Within(o.1, t[j].mask) && o.1 != t[j].mask {
      var i: nat :| Holds(t, i, o);
      MoreSpecific(t, dest, j, i);
    }
  }

  lemma NoMatchIff(t: seq<Route>, dest: bv32)
    requires Inv(t)
    ensures Lookup(t, dest).None? <==> forall o :: o in View(t) ==> !Covers(o, dest)
  {
    hide Ones, Inv, View, Covers, Lookup;
    InvKeysOnce(t);
    ViewHolds(t);
    if Lookup(t, dest).None? {
      forall o | o in View(t) ensures !Covers(o, dest) {
        var i: nat :| Holds(t, i, o);
        assert !Matches(t[i], dest);
      }
    } else {
      assert Covers(KeyOf(t[Lookup(t, dest).value]), dest);
    }
  }

  /** With contiguous masks a lookup finds a route exactly when it is the longest match of the map. */
  lemma LookupLongestIff(t: seq<Route>, dest: bv32, k: Key)
    requires Inv(t) && AllContiguous(t)
    ensures (Lookup(t, dest).Some? && KeyOf(t[Lookup(t, dest).value]) == k) <==> Longest(View(t), dest, k)
  {
    hide Ones, Within, Inv, View, Lookup, Covers, BestBelow, AllContiguous, KeyOf;
    NoMatchIff(t, dest);
    if Lookup(t, dest).Some? {
      var j := Lookup(t, dest).value;
      FoundIsLongest(t, dest, j);
      if Longest(View(t), dest, k) { LongestOnce(View(t), dest, k, KeyOf(t[j])); }
    }
  }

  /** There is at most one. */
  lemma LongestOnce(m: RouteMap, dest: bv32, a: Key, b: Key)
    requires Longest(m, dest, a) && Longest(m, dest, b)
    ensures a == b
  {
    hide Within, Covers;
    if a != b {
      assert Within(b.1, a.1) && b.1 != a.1;
      assert Within(a.1, b.1);
      WithinBoth(a.1, b.1);
    }
  }

  lemma WithinBoth(a: bv32, b: bv32)
    requires Within(a, b) && Within(b, a)
    ensures a == b
  {
  }

  // ---- The order of the slots ----

  function Pick(t: seq<Route>, dest: bv32): Option<Route> {
    match Lookup(t, dest) case None => None case Some(i) => Some(t[i])
  }

  /** A route with the most mask bits among those that match. */
  ghost predicate Top(t: seq<Route>, dest: bv32, r: Route) {
    r in t && Matches(r, dest) && forall o :: o in t && Matches(o, dest) ==> Ones(o.mask) <= Ones(r.mask)
  }

  /** Two different routes match with the same number of mask bits, and none with more. */
  ghost predicate Tie(t: seq<Route>, dest: bv32) { exists a, b :: Top(t, dest, a) && Top(t, dest, b) && a != b }

  ghost predicate Reordered(t: seq<Route>, u: seq<Route>) { multiset(t) == multiset(u) }

  /** The lookup gives the same route however the slots are ordered. */
  ghost predicate OrderFree(t: seq<Route>, dest: bv32) {
    forall u :: Reordered(t, u) ==> Pick(u, dest) == Pick(t, dest)
  }

  lemma PickIsTop(t: seq<Route>, dest: bv32)
    ensures Pick(t, dest).Some? ==> Top(t, dest, Pick(t, dest).value)
    ensures Pick(t, dest).None? ==> forall r :: r in t ==> !Matches(r, dest)
  {
    hide Ones, Matches, Lookup;
  }

  lemma SameMembers(t: seq<Route>, u: seq<Route>)
    requires Reordered(t, u)
    ensures forall r :: r in t <==> r in u
  {
    assert forall r :: r in t <==> r in multiset(t);
    assert forall r :: r in u <==> r in multiset(u);
  }

  lemma NoTieOrderFree(t: seq<Route>, dest: bv32, u: seq<Route>)
    requires !Tie(t, dest) && Reordered(t, u)
    ensures Pick(u, dest) == Pick(t, dest)
  {
    hide Ones, Matches, Pick;
    SameMembers(t, u);
    PickIsTop(t, dest);
    PickIsTop(u, dest);
    if Pick(u, dest).Some? {
      assert Top(t, dest, Pick(u, dest).value);
      assert Pick(t, dest).Some?;
    }
  }

  lemma SwapReorders(t: seq<Route>, i: nat, j: nat)
    requires i < j < |t|
    ensures Reordered(t, t[i := t[j]][j := t[i]])
  {
    var a, b, c := t[..i], t[i + 1..j], t[j + 1..];
    assert t == a + [t[i]] + b + [t[j]] + c;
    assert t[i := t[j]][j := t[i]] == a + [t[j]] + b + [t[i]] + c;
  }

  /** Another route of as many mask bits, put in the place of the one found, is found instead. */
  lemma SwapPicks(t: seq<Route>, dest: bv32, i: nat, j: nat)
    requires BestBelow(t, dest, |t|, i) && i < j < |t| && Top(t, dest, t[j])
    ensures Pick(t[i := t[j]][j := t[i]], dest) == Some(t[j])
  {
    hide Ones, Matches, Lookup, Tie;
    var u := t[i := t[j]][j := t[i]];
    assert Ones(t[i].mask) == Ones(t[j].mask);
    forall k | 0 <= k < |u| && Matches(u[k], dest) ensures Ones(u[k].mask) <= Ones(t[j].mask) { assert u[k] in t; }
    assert Matches(u[i], dest);
    var b := Lookup(u, dest).value;
    assert forall k :: 0 <= k < i ==> u[k] == t[k];
  }

  /** The slot order does not matter to a destination exactly when no two best routes tie for it. */
  lemma OrderFreeIff(t: seq<Route>, dest: bv32)
    ensures OrderFree(t, dest) <==> !Tie(t, dest)
  {
    hide Ones, Matches, Pick, Lookup;
    if Tie(t, dest) {
      var a, b :| Top(t, dest, a) && Top(t, dest, b) && a != b;
      PickIsTop(t, dest);
      FoundFirst(t, dest);
      var i := Lookup(t, dest).value;
      var other := if a == t[i] then b else a;
      var j :| 0 <= j < |t| && t[j] == other;
      NotBefore(t, dest, i, j);
      SwapReorders(t, i, j);
      SwapPicks(t, dest, i, j);
    } else {
      forall u | Reordered(t, u) ensures Pick(u, dest) == Pick(t, dest) { NoTieOrderFree(t, dest, u); }
    }
  }

  lemma FoundFirst(t: seq<Route>, dest: bv32)
    requires exists r :: Top(t, dest, r)
    ensures Lookup(t, dest).Some? && Pick(t, dest) == Some(t[Lookup(t, dest).value])
  {
    hide Ones, Matches, Lookup;
  }

  lemma NotBefore(t: seq<Route>, dest: bv32, i: nat, j: nat)
    requires BestBelow(t, dest, |t|, i) && j < |t| && Top(t, dest, t[j]) && t[i] != t[j]
    ensures i < j
  {
    hide Ones, Matches;
    assert t[i] in t;
  }

  /** Contiguous masks never tie. */
  lemma ContiguousNeverTies(t: seq<Route>, dest: bv32)
    requires Inv(t) && AllContiguous(t)
    ensures !Tie(t, dest) && OrderFree(t, dest)
  {
    hide Ones, Matches, Lookup, Inv, Within, AllContiguous;
    OrderFreeIff(t, dest);
    if Tie(t, dest) {
      var a, b :| Top(t, dest, a) && Top(t, dest, b) && a != b;
      FoundFirst(t, dest);
      var i := Lookup(t, dest).value;
      var other := if a == t[i] then b else a;
      var j :| 0 <= j < |t| && t[j] == other;
      assert t[i] in t;
      MoreSpecific(t, dest, i, j);
      WithinFewer(t[j].mask, t[i].mask);
      assert false;
    }
  }

  /** Masks with gaps can tie: 0.0.0.1 under mask 0.0.0.1 and 0.0.0.2 under mask 0.0.0.2 both match 0.0.0.3
      with one bit. */
  lemma GapsCanTie()
    ensures var a, b := Route(true, 1, 1, 0, 1), Route(true, 2, 2, 0, 2);
            RouteOk(a) && RouteOk(b) && !ValidNetmask(1) && !ValidNetmask(2) && Tie([a, b], 3)
  {
    var a, b := Route(true, 1, 1, 0, 1), Route(true, 2, 2, 0, 2);
    assert Covers(KeyOf(a), 3) && Covers(KeyOf(b), 3);
    OneBit();
    TwoTops(a, b, 3);
  }

  lemma OneBit()
    ensures Ones(1) == 1 && Ones(2) == 1
  {
    OnesStep(2);
    OnesStep(1);
  }

  lemma TwoTops(a: Route, b: Route, dest: bv32)
    requires Matches(a, dest) && Matches(b, dest) && Ones(a.mask) == Ones(b.mask) && a != b
    ensures Tie([a, b], dest)
  {
    hide Ones, Matches;
    assert a in [a, b] && b in [a, b];
    assert Top([a, b], dest, a) && Top([a, b], dest, b);
  }
}
