/** The routing table: adding, removing, and finding the most specific route. */
module Routes {
  import opened Bits

  const ROUTES: nat := 16

  datatype Route = Route(used: bool, network: bv32, mask: bv32, gateway: bv32, device: nat)

  const UNUSED: Route := Route(false, 0, 0, 0, 0)

  // ---- Masks ----

  function Ones(m: bv32): nat
    decreases m
  {
    if m == 0 then 0 else Low(m) + Ones(Half(m))
  }

  function Low(m: bv32): nat { if m & 1 == 1 then 1 else 0 }

  function Half(m: bv32): (h: bv32)
    ensures m != 0 ==> h < m
  {
    m >> 1
  }

  lemma OnesStep(m: bv32)
    ensures Ones(m) == Low(m) + Ones(Half(m))
  {
  }

  predicate ValidNetmask(m: bv32) { (!m & (!m + 1)) == 0 }

  /** A one bit has only ones above it. */
  predicate Contiguous(m: bv32) { (m << 1) & m == m << 1 }

  predicate Within(a: bv32, b: bv32) { a & b == a }

  lemma ValidIffContiguous(m: bv32)
    ensures ValidNetmask(m) <==> Contiguous(m)
  {
  }

  lemma ContiguousNested(a: bv32, b: bv32)
    requires Contiguous(a) && Contiguous(b)
    ensures Within(a, b) || Within(b, a)
  {
  }

  /** A mask within another has fewer ones, unless they are the same. */
  lemma {:induction false} WithinFewer(a: bv32, b: bv32)
    requires Within(a, b)
    ensures Ones(a) <= Ones(b) && (Ones(a) == Ones(b) ==> a == b)
    decreases b
  {
    hide Within, Ones, Low, Half;
    HalfWithin(a, b);
    if b != 0 {
      WithinFewer(Half(a), Half(b));
      OnesStep(a);
      OnesStep(b);
    }
  }

  lemma HalfWithin(a: bv32, b: bv32)
    requires Within(a, b)
    ensures Within(Half(a), Half(b)) && Low(a) <= Low(b)
    ensures Half(a) == Half(b) && Low(a) == Low(b) ==> a == b
    ensures b == 0 ==> a == 0
  {
  }

  method CountOnes(m: bv32) returns (bits: nat)
    ensures bits == Ones(m)
  {
    bits := 0;
    var mask := m;
    while mask != 0
      invariant bits + Ones(mask) == Ones(m)
      decreases mask
    {
      bits := bits + Low(mask);
      mask := Half(mask);
    }
  }

  // ---- The table ----

  type Key = (bv32, bv32)

  type Hop = (bv32, nat)

  function KeyOf(r: Route): Key { (r.network, r.mask) }

  function HopOf(r: Route): Hop { (r.gateway, r.device) }

  /** Networks are masked, a (network, mask) pair occurs once, and a default route has a gateway. */
  predicate Inv(t: seq<Route>)
    ensures Inv(t) ==> |t| == ROUTES
  {
    && |t| == ROUTES
    && (forall i :: 0 <= i < ROUTES && t[i].used ==> RouteOk(t[i]))
    && (forall i, j :: 0 <= i < j < ROUTES && t[i].used && t[j].used ==> KeyOf(t[i]) != KeyOf(t[j]))
  }

  predicate RouteOk(r: Route) { r.network & r.mask == r.network && (r.mask == 0 ==> r.network == 0 && r.gateway != 0) }

  predicate AllContiguous(t: seq<Route>) { forall i :: 0 <= i < |t| && t[i].used ==> Contiguous(t[i].mask) }

  function FindPair(t: seq<Route>, k: Key, i: nat): (r: nat)
    requires i <= |t|
    ensures i <= r <= |t| && (r < |t| ==> t[r].used && KeyOf(t[r]) == k)
    ensures forall j :: i <= j < r ==> !(t[j].used && KeyOf(t[j]) == k)
    decreases |t| - i
  {
    if i == |t| || (t[i].used && KeyOf(t[i]) == k) then i else FindPair(t, k, i + 1)
  }

  function FindUnused(t: seq<Route>, i: nat): (r: nat)
    requires i <= |t|
    ensures i <= r <= |t| && (r < |t| ==> !t[r].used)
    ensures forall j :: i <= j < r ==> t[j].used
    decreases |t| - i
  {
    if i == |t| || !t[i].used then i else FindUnused(t, i + 1)
  }

  predicate Acceptable(network: bv32, mask: bv32, gateway: bv32, device: Option<nat>) {
    device.Some? && !(mask == 0 && (network != 0 || gateway == 0))
  }

  function Add(t: seq<Route>, network: bv32, mask: bv32, gateway: bv32, device: Option<nat>): (seq<Route>, bool) {
    if !Acceptable(network, mask, gateway, device) then (t, false)
    else
      var r := Route(true, network & mask, mask, gateway, device.value);
      var i := FindPair(t, KeyOf(r), 0);
      var j := FindUnused(t, 0);
      if i < |t| then (t[i := r], true) else if j < |t| then (t[j := r], true) else (t, false)
  }

  function Remove(t: seq<Route>, network: bv32, mask: bv32): (seq<Route>, bool) {
    var i := FindPair(t, (network & mask, mask), 0);
    if i < |t| then (t[i := t[i].(used := false)], true) else (t, false)
  }

  lemma MaskedOnce(network: bv32, mask: bv32)
    ensures (network & mask) & mask == network & mask
    ensures mask == 0 ==> network & mask == 0
  {
  }

  lemma WriteKeepsInv(t: seq<Route>, i: nat, r: Route)
    requires Inv(t) && i < |t| && RouteOk(r)
    requires forall j :: 0 <= j < |t| && j != i && t[j].used ==> KeyOf(t[j]) != KeyOf(r)
    ensures Inv(t[i := r])
  {
    hide RouteOk, KeyOf;
    var n := t[i := r];
    forall a, b | 0 <= a < b < ROUTES && n[a].used && n[b].used ensures KeyOf(n[a]) != KeyOf(n[b]) {
      assert a != i ==> n[a] == t[a];
      assert b != i ==> n[b] == t[b];
    }
  }

  lemma AddKeepsInv(t: seq<Route>, network: bv32, mask: bv32, gateway: bv32, device: Option<nat>)
    requires Inv(t)
    ensures Inv(Add(t, network, mask, gateway, device).0)
  {
    hide FindPair, FindUnused, Inv, KeyOf;
    if Acceptable(network, mask, gateway, device) {
      var r := Route(true, network & mask, mask, gateway, device.value);
      MaskedOnce(network, mask);
      assert RouteOk(r);
      var i, j := FindPair(t, KeyOf(r), 0), FindUnused(t, 0);
      if i < |t| {
        OnlySlot(t, i);
        WriteKeepsInv(t, i, r);
      } else if j < |t| {
        WriteKeepsInv(t, j, r);
      }
    }
  }

  lemma OnlySlot(t: seq<Route>, i: nat)
    requires Inv(t) && i < |t| && t[i].used
    ensures RouteOk(t[i])
    ensures forall j :: 0 <= j < |t| && j != i && t[j].used ==> KeyOf(t[j]) != KeyOf(t[i])
  {
    hide KeyOf, RouteOk;
  }

  lemma RemoveKeepsInv(t: seq<Route>, network: bv32, mask: bv32)
    requires Inv(t)
    ensures Inv(Remove(t, network, mask).0)
  {
    hide FindPair, Inv, KeyOf, RouteOk;
    var i := FindPair(t, (network & mask, mask), 0);
    if i < |t| {
      OnlySlot(t, i);
      RouteUnused(t[i]);
      WriteKeepsInv(t, i, t[i].(used := false));
    }
  }

  lemma RouteUnused(r: Route)
    requires RouteOk(r)
    ensures RouteOk(r.(used := false)) && KeyOf(r.(used := false)) == KeyOf(r)
  {
  }

  // ---- The table as a map ----

  type RouteMap = map<Key, Hop>

  function View(t: seq<Route>): RouteMap {
    if t == [] then map[]
    else
      var r := t[|t| - 1];
      var m := View(t[..|t| - 1]);
      if r.used then m[KeyOf(r) := HopOf(r)] else m
  }

  predicate KeysOnce(t: seq<Route>) {
    forall i, j :: 0 <= i < j < |t| && t[i].used && t[j].used ==> KeyOf(t[i]) != KeyOf(t[j])
  }

  predicate Holds(t: seq<Route>, i: nat, k: Key) { i < |t| && t[i].used && KeyOf(t[i]) == k }

  lemma {:induction false} ViewHolds(t: seq<Route>)
    requires KeysOnce(t)
    ensures forall k :: k in View(t) <==> exists i: nat :: Holds(t, i, k)
    ensures forall i: nat :: i < |t| && t[i].used ==> KeyOf(t[i]) in View(t) && View(t)[KeyOf(t[i])] == HopOf(t[i])
  {
    if t != [] {
      var rest, r := t[..|t| - 1], t[|t| - 1];
      ViewHolds(rest);
      forall k | k in View(t) ensures exists i: nat :: Holds(t, i, k) {
        if k in View(rest) {
          var i: nat :| Holds(rest, i, k);
          assert Holds(t, i, k);
        } else {
          assert Holds(t, |t| - 1, k);
        }
      }
      forall i: nat, k | Holds(t, i, k) ensures k in View(t) {
        assert i < |t| - 1 ==> Holds(rest, i, k);
      }
      forall i: nat | i < |t| && t[i].used ensures KeyOf(t[i]) in View(t) && View(t)[KeyOf(t[i])] == HopOf(t[i]) {
        assert i < |t| - 1 ==> t[i] == rest[i];
      }
    }
  }

  function Count(t: seq<Route>): (c: nat)
    ensures c <= |t|
    ensures c == |t| <==> forall i :: 0 <= i < |t| ==> t[i].used
  {
    if t == [] then 0
    else
      var rest := t[..|t| - 1];
      var c := Count(rest);
      assert forall i :: 0 <= i < |t| - 1 ==> t[i] == rest[i];
      c + if t[|t| - 1].used then 1 else 0
  }

  /** The map has one key per used slot. */
  lemma {:induction false} ViewSize(t: seq<Route>)
    requires KeysOnce(t)
    ensures |View(t)| == Count(t)
  {
    if t != [] {
      var rest, r := t[..|t| - 1], t[|t| - 1];
      ViewSize(rest);
      ViewHolds(rest);
      forall i: nat ensures r.used ==> !Holds(rest, i, KeyOf(r)) {
        assert i < |rest| ==> t[i] == rest[i];
      }
    }
  }

  function MapAdd(m: RouteMap, network: bv32, mask: bv32, gateway: bv32, device: Option<nat>): (RouteMap, bool) {
    var k := (network & mask, mask);
    if Acceptable(network, mask, gateway, device) && (k in m || |m| < ROUTES) then
        (m[k := (gateway, device.value)], true)
    else (m, false)
  }

  function MapRemove(m: RouteMap, network: bv32, mask: bv32): (RouteMap, bool) {
    var k := (network & mask, mask);
    if k in m then (m - {k}, true) else (m, false)
  }

  lemma InvKeysOnce(t: seq<Route>)
    requires Inv(t)
    ensures KeysOnce(t)
  {
  }

  /** Writing one slot over a slot of the same key or an unused one writes the map. */
  lemma WriteSlot(t: seq<Route>, i: nat, r: Route)
    requires KeysOnce(t) && i < |t| && r.used && KeysOnce(t[i := r])
    requires t[i].used ==> KeyOf(t[i]) == KeyOf(r)
    ensures View(t[i := r]) == View(t)[KeyOf(r) := HopOf(r)]
  {
    hide View, KeyOf, HopOf;
    var n := t[i := r];
    ViewHolds(t);
    ViewHolds(n);
    assert Holds(n, i, KeyOf(r));
    forall k ensures k in View(n) <==> k in View(t) || k == KeyOf(r) {
      if j: nat :| Holds(t, j, k) { assert j != i ==> Holds(n, j, k); }
      if j: nat :| Holds(n, j, k) { assert j != i ==> Holds(t, j, k); }
    }
    forall k | k in View(t) && k != KeyOf(r) ensures View(n)[k] == View(t)[k] {
      var j: nat :| Holds(t, j, k);
      assert n[j] == t[j];
    }
  }

  lemma ClearSlot(t: seq<Route>, i: nat)
    requires KeysOnce(t) && i < |t| && t[i].used && KeysOnce(t[i := t[i].(used := false)])
    ensures View(t[i := t[i].(used := false)]) == View(t) - {KeyOf(t[i])}
  {
    hide View, KeyOf, HopOf;
    var n := t[i := t[i].(used := false)];
    ViewHolds(t);
    ViewHolds(n);
    forall k ensures k in View(n) <==> k in View(t) && k != KeyOf(t[i]) {
      if j: nat :| Holds(t, j, k) { assert j != i ==> Holds(n, j, k); }
      if j: nat :| Holds(n, j, k) { assert Holds(t, j, k); }
    }
    forall k | k in View(n) ensures View(n)[k] == View(t)[k] {
      var j: nat :| Holds(n, j, k);
      assert n[j] == t[j];
    }
  }

  /** Adding is an update of a map that holds at most sixteen routes, and fails exactly when that does. */
  lemma AddRefines(t: seq<Route>, network: bv32, mask: bv32, gateway: bv32, device: Option<nat>)
    requires Inv(t)
    ensures var (n, ok) := Add(t, network, mask, gateway, device);
            (View(n), ok) == MapAdd(View(t), network, mask, gateway, device)
  {
    hide FindPair, FindUnused, View, Inv, Count;
    if Acceptable(network, mask, gateway, device) {
      var n := Add(t, network, mask, gateway, device).0;
      var r := Route(true, network & mask, mask, gateway, device.value);
      AddKeepsInv(t, network, mask, gateway, device);
      InvKeysOnce(t);
      InvKeysOnce(n);
      ViewHolds(t);
      ViewSize(t);
      var i, j := FindPair(t, KeyOf(r), 0), FindUnused(t, 0);
      assert i < |t| ==> Holds(t, i, KeyOf(r));
      assert i == |t| ==> forall a: nat :: !Holds(t, a, KeyOf(r));
      if i < |t| { WriteSlot(t, i, r); } else if j < |t| { WriteSlot(t, j, r); }
    }
  }

  lemma RemoveRefines(t: seq<Route>, network: bv32, mask: bv32)
    requires Inv(t)
    ensures var (n, ok) := Remove(t, network, mask); (View(n), ok) == MapRemove(View(t), network, mask)
  {
    hide FindPair, View, Inv;
    var k := (network & mask, mask);
    RemoveKeepsInv(t, network, mask);
    InvKeysOnce(t);
    InvKeysOnce(Remove(t, network, mask).0);
    ViewHolds(t);
    var i := FindPair(t, k, 0);
    assert i < |t| ==> Holds(t, i, k);
    if i < |t| { ClearSlot(t, i); }
  }
}
