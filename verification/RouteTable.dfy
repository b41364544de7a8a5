/** The routing table in place, and every run of changes to it. */
module RouteTable {
  import opened Bits
  import opened Routes
  import opened RouteLookup

  class Table {
    const routes: array<Route>

    ghost predicate Valid() reads this, routes { Inv(routes[..]) }

    constructor ()
      ensures Valid() && fresh(routes) && View(routes[..]) == map[]
    {
      routes := new Route[ROUTES](_ => UNUSED);
      new;
      Cleared(routes[..]);
    }

    method Clear()
      requires Valid()
      modifies routes
      ensures Valid() && View(routes[..]) == map[]
    {
      forall i | 0 <= i < routes.Length { routes[i] := UNUSED; }
      Cleared(routes[..]);
    }

    method AddRoute(network: bv32, mask: bv32, gateway: bv32, device: Option<nat>) returns (ok: bool)
      requires Valid()
      modifies routes
      ensures Valid() && (routes[..], ok) == Add(old(routes[..]), network, mask, gateway, device)
    {
      hide Inv, FindPair, FindUnused;
      ghost var t := routes[..];
      AddKeepsInv(t, network, mask, gateway, device);
      if device.None? || (mask == 0 && (network != 0 || gateway == 0)) { return false; }
      var r := Route(true, network & mask, mask, gateway, device.value);
      var i := FindSlot(KeyOf(r));
      if i < routes.Length {
        routes[i] := routes[i].(gateway := gateway, device := device.value);
        assert routes[..] == t[i := r];
        return true;
      }
      var j := FindFree();
      if j < routes.Length {
        routes[j] := r;
        assert routes[..] == t[j := r];
        return true;
      }
      ok := false;
    }

    method RemoveRoute(network: bv32, mask: bv32) returns (ok: bool)
      requires Valid()
      modifies routes
      ensures Valid() && (routes[..], ok) == Remove(old(routes[..]), network, mask)
    {
      hide Inv, FindPair;
      ghost var t := routes[..];
      RemoveKeepsInv(t, network, mask);
      var i := FindSlot((network & mask, mask));
      if i == routes.Length { return false; }
      routes[i] := routes[i].(used := false);
      assert routes[..] == t[i := t[i].(used := false)];
      ok := true;
    }

    method FindSlot(k: Key) returns (i: nat)
      ensures i == FindPair(routes[..], k, 0)
    {
      i := 0;
      while i < routes.Length && !(routes[i].used && KeyOf(routes[i]) == k)
        invariant i <= routes.Length && FindPair(routes[..], k, i) == FindPair(routes[..], k, 0)
      {
        i := i + 1;
      }
    }

    method FindFree() returns (i: nat)
      ensures i == FindUnused(routes[..], 0)
    {
      i := 0;
      while i < routes.Length && routes[i].used
        invariant i <= routes.Length && FindUnused(routes[..], i) == FindUnused(routes[..], 0)
      {
        i := i + 1;
      }
    }

    /** The device and next hop for a destination: the gateway of the route, or the destination itself. */
    method FindRoute(dest: bv32) returns (hop: Option<Hop>)
      ensures hop == match Pick(routes[..], dest)
                     case None => None
                     case Some(r) => Some((if r.gateway != 0 then r.gateway else dest, r.device))
    {
      hide Ones, Matches;
      var best: Option<nat> := None;
      var bestBits := 0;
      for i := 0 to routes.Length
        invariant best == Scan(routes[..], dest, i)
        invariant best.Some? ==> bestBits == Ones(routes[best.value].mask)
      {
        if Matches(routes[i], dest) {
          var bits := CountOnes(routes[i].mask);
          if best.None? || bits > bestBits {
            best := Some(i);
            bestBits := bits;
          }
        }
      }
      if best.None? { return None; }
      var r := routes[best.value];
      hop := Some((if r.gateway != 0 then r.gateway else dest, r.device));
    }
  }

  lemma Cleared(t: seq<Route>)
    requires |t| == ROUTES && forall i :: 0 <= i < |t| ==> !t[i].used
    ensures Inv(t) && View(t) == map[]
  {
    InvKeysOnce(t);
    ViewHolds(t);
    assert forall k :: k !in View(t);
  }

  // ---- Runs ----

  datatype Op =
    | AddOp(network: bv32, mask: bv32, gateway: bv32, device: Option<nat>)
    | RemoveOp(network: bv32, mask: bv32)

  function Step(t: seq<Route>, op: Op): (n: seq<Route>)
    requires Inv(t)
    ensures Inv(n)
  {
    match op
    case AddOp(network, mask, gateway, device) =>
      AddKeepsInv(t, network, mask, gateway, device);
      Add(t, network, mask, gateway, device).0
    case RemoveOp(network, mask) =>
      RemoveKeepsInv(t, network, mask);
      Remove(t, network, mask).0
  }

  function MapStep(m: RouteMap, op: Op): RouteMap {
    match op
    case AddOp(network, mask, gateway, device) => MapAdd(m, network, mask, gateway, device).0
    case RemoveOp(network, mask) => MapRemove(m, network, mask).0
  }

  function Run(t: seq<Route>, ops: seq<Op>): (n: seq<Route>)
    requires Inv(t)
    ensures Inv(n)
    decreases |ops|
  {
    if ops == [] then t else Run(Step(t, ops[0]), ops[1..])
  }

  function MapRun(m: RouteMap, ops: seq<Op>): RouteMap
    decreases |ops|
  {
    if ops == [] then m else MapRun(MapStep(m, ops[0]), ops[1..])
  }

  lemma {:induction false} RunRefines(t: seq<Route>, ops: seq<Op>)
    requires Inv(t)
    ensures View(Run(t, ops)) == MapRun(View(t), ops)
    decreases |ops|
  {
    hide Inv, View, Add, Remove, MapAdd, MapRemove;
    if ops != [] {
      match ops[0] {
        case AddOp(network, mask, gateway, device) => AddRefines(t, network, mask, gateway, device);
        case RemoveOp(network, mask) => RemoveRefines(t, network, mask);
      }
      RunRefines(Step(t, ops[0]), ops[1..]);
    }
  }

  predicate MasksContiguous(ops: seq<Op>) {
    forall i :: 0 <= i < |ops| && ops[i].AddOp? ==> ValidNetmask(ops[i].mask)
  }

  lemma StepContiguous(t: seq<Route>, op: Op)
    requires Inv(t) && AllContiguous(t) && (op.AddOp? ==> ValidNetmask(op.mask))
    ensures AllContiguous(Step(t, op))
  {
    hide Inv, FindPair, FindUnused, Contiguous, ValidNetmask;
    if op.AddOp? { ValidIffContiguous(op.mask); }
  }

  lemma {:induction false} RunContiguous(t: seq<Route>, ops: seq<Op>)
    requires Inv(t) && AllContiguous(t) && MasksContiguous(ops)
    ensures AllContiguous(Run(t, ops))
    decreases |ops|
  {
    hide Inv, AllContiguous, Step, ValidNetmask;
    if ops != [] {
      StepContiguous(t, ops[0]);
      RunContiguous(Step(t, ops[0]), ops[1..]);
    }
  }

  /** After every run of changes from an empty table with contiguous masks, a lookup gives exactly the
      longest match of the map that the changes built, with its next hop, in whatever order the slots came to stand. */
  lemma EveryRunRoutesLongest(t: seq<Route>, ops: seq<Op>, dest: bv32, k: Key)
    requires |t| == ROUTES && (forall i :: 0 <= i < |t| ==> !t[i].used) && MasksContiguous(ops)
    ensures Inv(t)
    ensures var n := Run(t, ops);
            && ((Lookup(n, dest).Some? && KeyOf(n[Lookup(n, dest).value]) == k) <==>
                Longest(MapRun(map[], ops), dest, k))
            && (Lookup(n, dest).Some? ==>
                  var r := n[Lookup(n, dest).value];
                  KeyOf(r) in MapRun(map[], ops) && HopOf(r) == MapRun(map[], ops)[KeyOf(r)])
            && OrderFree(n, dest)
  {
    Cleared(t);
    hide Inv, View, Run, MapRun, Lookup, Longest, OrderFree, MasksContiguous;
    RunRefines(t, ops);
    assert AllContiguous(t);
    RunContiguous(t, ops);
    LookupLongestIff(Run(t, ops), dest, k);
    ContiguousNeverTies(Run(t, ops), dest);
    if Lookup(Run(t, ops), dest).Some? {
      InvKeysOnce(Run(t, ops));
      ViewHolds(Run(t, ops));
      LookupUsed(Run(t, ops), dest);
    }
  }

  lemma LookupUsed(t: seq<Route>, dest: bv32)
    requires Lookup(t, dest).Some?
    ensures t[Lookup(t, dest).value].used
  {
  }
}
