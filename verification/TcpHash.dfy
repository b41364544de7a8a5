/** The connection table as the kernel keeps it: bucket heads and links threaded through the table. */
module TcpHash {
  import opened Bits
  import opened Lists
  import opened Chains
  import opened TcpTable

  lemma InvApart(t: Table)
    requires Inv(t)
    ensures Apart(t.chains)
  {
    hide Hash;
    forall b | 0 <= b < BUCKETS ensures Distinct(t.chains[b]) { assert ChainOk(t, b); }
    forall a, b, x | 0 <= a < b < BUCKETS && x in t.chains[a] ensures x !in t.chains[b] {
      assert ChainOk(t, a) && ChainOk(t, b);
    }
  }

  lemma Unlisted(t: Table, i: nat)
    requires Inv(t) && i < CONNECTIONS && !t.conns[i].linked
    ensures forall b :: 0 <= b < BUCKETS ==> i !in t.chains[b]
  {
    forall b | 0 <= b < BUCKETS ensures i !in t.chains[b] { assert ChainOk(t, b); }
  }

  lemma PrependChain(next: seq<nat>, head: nat, xs: seq<nat>, p: nat)
    requires Chain(next, head, xs) && p < |next| && p !in xs
    ensures Chain(next[p := head], p, [p] + xs)
  {
    var n, ys, link := |next|, [p] + xs, next[p := head];
    forall i | 0 <= i < |ys| ensures ys[i] < n && link[ys[i]] == At(ys, i + 1, n) {
      if i > 0 {
        LinkAt(next, head, xs, i - 1);
        assert ys[i] == xs[i - 1] && xs[i - 1] in xs;
      }
    }
  }

  lemma PrependChained(next: seq<nat>, heads: seq<nat>, lists: seq<seq<nat>>, q: nat, p: nat)
    requires Chained(next, heads, lists) && q < |lists| && p < |next|
    requires forall r :: 0 <= r < |lists| ==> p !in lists[r]
    ensures Chained(next[p := heads[q]], heads[q := p], lists[q := [p] + lists[q]])
  {
    var link, front, grown := next[p := heads[q]], heads[q := p], lists[q := [p] + lists[q]];
    forall r | 0 <= r < |lists| ensures Chain(link, front[r], grown[r]) {
      assert Chain(next, heads[r], lists[r]);
      if r == q {
        PrependChain(next, heads[q], lists[q], p);
      } else {
        ChainInRange(next, heads[r], lists[r]);
        ChainFrame(next, link, heads[r], lists[r]);
      }
    }
  }

  /** The link of an entry that is on no list is free to change. */
  lemma FreeLink(next: seq<nat>, link: seq<nat>, heads: seq<nat>, lists: seq<seq<nat>>, p: nat)
    requires Chained(next, heads, lists) && |link| == |next| && p < |next|
    requires forall i :: 0 <= i < |next| && i != p ==> link[i] == next[i]
    requires forall r :: 0 <= r < |lists| ==> p !in lists[r]
    ensures Chained(link, heads, lists)
  {
    forall r | 0 <= r < |lists| ensures Chain(link, heads[r], lists[r]) {
      assert Chain(next, heads[r], lists[r]);
      ChainInRange(next, heads[r], lists[r]);
      ChainFrame(next, link, heads[r], lists[r]);
    }
  }

  /** Where a linked connection stands in its bucket. */
  lemma Place(t: Table, next: seq<nat>, heads: seq<nat>, i: nat) returns (k: nat)
    requires Inv(t) && i < CONNECTIONS && t.conns[i].linked && Chained(next, heads, t.chains)
    ensures t.conns[i].bucket < BUCKETS
    ensures var b := t.conns[i].bucket; var xs := t.chains[b];
            && |heads| == BUCKETS && Apart(t.chains) && Distinct(xs) && Chain(next, heads[b], xs)
            && k < |xs| && xs[k] == i && i < |next|
            && Without(xs, i) == xs[..k] + xs[k + 1..]
  {
    hide Hash;
    assert ConnOk(t, i);
    var xs := t.chains[t.conns[i].bucket];
    InvApart(t);
    k :| k < |xs| && xs[k] == i;
    WithoutAt(xs, k);
    ChainInRange(next, heads[t.conns[i].bucket], xs);
  }

  lemma FirstStep(conns: seq<Conn>, xs: seq<nat>, j: nat, k: Tuple)
    requires j < |xs| && forall i :: 0 <= i < |xs| ==> xs[i] < |conns|
    ensures FirstMatch(conns, xs[j..], k)
         == if conns[xs[j]].used && conns[xs[j]].tuple == k then Some(xs[j]) else FirstMatch(conns, xs[j + 1..], k)
  {
    assert xs[j..][1..] == xs[j + 1..];
  }

  lemma NoMatch(conns: seq<Conn>, k: Tuple)
    ensures FirstMatch(conns, [], k).None?
  {
  }

  class ConnectionTable {
    var conns: seq<Conn>
    var next: seq<nat>
    var heads: seq<nat>
    var port: bv16
    ghost var chains: seq<seq<nat>>

    ghost function Value(): Table reads this { Table(conns, chains, port) }

    ghost predicate Linked() reads this { |next| == CONNECTIONS && Chained(next, heads, chains) }

    ghost predicate Valid() reads this { Inv(Value()) && Linked() }

    constructor ()
      ensures Valid() && port == 30000
      ensures (forall i :: 0 <= i < CONNECTIONS ==> conns[i] == BLANK) && (forall b :: 0 <= b < BUCKETS ==>
              chains[b] == [])
    {
      conns := seq(CONNECTIONS, _ => BLANK);
      next := seq(CONNECTIONS, _ => 0);
      heads := seq(BUCKETS, _ => CONNECTIONS);
      chains := seq(BUCKETS, _ => []);
      port := 30000;
    }

    /** The entry of the connection for a segment that carries k, the table's length if there is none. */
    method Find(k: Tuple) returns (index: nat)
      requires Valid()
      ensures index == match Lookup(Value(), k) case None => CONNECTIONS case Some(i) => i
    {
      hide Hash, TcpTable.Inv, FirstMatch, Chain;
      var b := Hash(Reverse(k));
      ghost var t, xs := Value(), chains[b];
      ChainInTable(t, b);
      assert Chain(next, heads[b], xs);
      ChainHead(next, heads[b], xs);
      assert xs[0..] == xs;
      index := heads[b];
      ghost var j := 0;
      while index != CONNECTIONS
        invariant j <= |xs| && index == At(xs, j, CONNECTIONS)
        invariant FirstMatch(conns, xs[j..], Reverse(k)) == Lookup(t, k)
        decreases |xs| - j
      {
        FirstStep(conns, xs, j, Reverse(k));
        if conns[index].used && conns[index].tuple == Reverse(k) { return; }
        LinkAt(next, heads[b], xs, j);
        index := next[index];
        j := j + 1;
      }
      NoMatch(conns, Reverse(k));
    }

    /** The first free entry, the table's length if there is none. */
    method FindFree() returns (i: nat)
      requires |conns| == CONNECTIONS
      ensures i == FreeSlot(conns, 0)
    {
      i := 0;
      while i < CONNECTIONS && conns[i].used
        invariant i <= CONNECTIONS && FreeSlot(conns, i) == FreeSlot(conns, 0)
      {
        i := i + 1;
      }
    }

    /** Clears a free entry, fills it in and links it in front of its bucket. */
    method Insert(i: nat, k: Tuple, state: ConnState, now: int)
      requires Valid() && i < CONNECTIONS && !conns[i].used
      modifies this
      ensures Valid() && Value() == Open(old(Value()), i, k, state, now)
    {
      hide Hash, TcpTable.Inv, Chained, Chain;
      ghost var t := Value();
      OpenKeepsInv(t, i, k, state, now);
      NotLinked(t, i);
      Unlisted(t, i);
      var bucket := Hash(k);
      FreeLink(next, next[i := CONNECTIONS], heads, chains, i);
      PrependChained(next[i := CONNECTIONS], heads, chains, bucket, i);
      HeadCount(next, heads, chains);
      conns := conns[i := BLANK.(used := true, tuple := k, state := state, activity := now)];
      next := next[i := CONNECTIONS];
      conns := conns[i := conns[i].(bucket := bucket)];
      next := next[i := heads[bucket]];
      heads := heads[bucket := i];
      conns := conns[i := conns[i].(linked := true)];
      chains := chains[bucket := [i] + chains[bucket]];
      assert Value() == Open(t, i, k, state, now);
    }

    /** Unlinks an entry from its bucket and frees it. A linked entry is always found in its bucket. */
    method RemoveEntry(i: nat)
      requires Valid() && i < CONNECTIONS
      modifies this
      ensures Valid() && Value() == Drop(old(Value()), i)
    {
      hide Hash, TcpTable.Inv, Chained, Chain, Without, Unlink, Apart, Distinct;
      ghost var t := Value();
      DropKeepsInv(t, i);
      if conns[i].linked {
        ghost var k := Place(t, next, heads, i);
        var bucket := conns[i].bucket;
        ghost var xs := chains[bucket];
        var previous := FindBefore(next, heads[bucket], i, xs, k);
        UnlinkedElsewhere(t, next, heads, bucket, k);
        if previous == CONNECTIONS {
          heads := heads[bucket := next[i]];
        } else {
          next := next[previous := next[i]];
        }
        chains := chains[bucket := xs[..k] + xs[k + 1..]];
        conns := conns[i := conns[i].(linked := false)];
      }
      conns := conns[i := conns[i].(used := false)];
      assert Value() == Drop(t, i);
    }

    /** An active open up to the point where it waits for the answer: the identifier it will return if the answer
        comes, or -1. */
    method StartConnect(dest: bv32, destPort: bv16, device: Option<bv32>, sent: bool, now: int)
      returns (id: int)
      requires Valid()
      modifies this
      ensures Valid() && Value() == Connect(old(Value()), dest, destPort, device, sent, now)
      ensures id == if dest != 0 && destPort != 0 && FreeSlot(old(conns), 0) < CONNECTIONS
                       && device.Some? && device.value != 0 && sent
                    then FreeSlot(old(conns), 0) + 1 else -1
    {
      hide Hash, TcpTable.Inv, Chained, Open, Drop, FreeSlot;
      ghost var t := Value();
      if dest == 0 || destPort == 0 { return -1; }
      var i := FindFree();
      if i == CONNECTIONS { return -1; }
      if device.None? || device.value == 0 {
        FillKeepsInv(t, i, BLANK);
        NotLinked(t, i);
        Unlisted(t, i);
        FreeLink(next, next[i := CONNECTIONS], heads, chains, i);
        conns := conns[i := BLANK];
        next := next[i := CONNECTIONS];
        return -1;
      }
      var local := port;
      PortKeepsInv(t, NextPort(port));
      port := NextPort(port);
      Insert(i, Tuple(device.value, local, dest, destPort), SYN_SENT, now);
      if !sent {
        RemoveEntry(i);
        return -1;
      }
      id := i + 1;
    }

    method StartListen(ip: bv32, localPort: bv16, backlog: nat) returns (id: int)
      requires Valid()
      modifies this
      ensures Valid() && Value() == Listen(old(Value()), ip, localPort, backlog)
      ensures id == if localPort == 0 || backlog == 0 then -22
                    else if FreeSlot(old(conns), 0) == CONNECTIONS then -12
                    else FreeSlot(old(conns), 0) + 1
    {
      hide Hash, TcpTable.Inv, Chained, FreeSlot;
      ghost var t := Value();
      if localPort == 0 || backlog == 0 { return -22; }
      var i := FindFree();
      if i == CONNECTIONS { return -12; }
      var c := Conn(true, true, Tuple(ip, localPort, 0, 0), false, 0, CLOSED, 0, 0, 0);
      FillKeepsInv(t, i, c);
      NotLinked(t, i);
      Unlisted(t, i);
      FreeLink(next, next[i := CONNECTIONS], heads, chains, i);
      conns := conns[i := c];
      next := next[i := CONNECTIONS];
      id := i + 1;
    }

    method FindListener(ip: bv32, localPort: bv16) returns (i: nat)
      requires |conns| == CONNECTIONS
      ensures i == Listener(conns, ip, localPort, 0)
    {
      i := 0;
      while i < CONNECTIONS && !ListensFor(conns[i], ip, localPort)
        invariant i <= CONNECTIONS && Listener(conns, ip, localPort, i) == Listener(conns, ip, localPort, 0)
      {
        i := i + 1;
      }
    }

    /** A segment that asks for a connection. */
    method Input(k: Tuple, now: int)
      requires Valid()
      modifies this
      ensures Valid() && Value() == Arrive(old(Value()), k, now)
    {
      hide Hash, TcpTable.Inv, Chained, Open, FreeSlot, Listener, Lookup;
      var found := Find(k);
      if found != CONNECTIONS { return; }
      var l := FindListener(k.destIp, k.destPort);
      if l == CONNECTIONS || conns[l].pending >= BACKLOG { return; }
      var i := FindFree();
      if i == CONNECTIONS { return; }
      Insert(i, Reverse(k), SYN_RECEIVED, now);
    }

    method CloseConnection(id: nat) returns (ok: bool)
      requires Valid()
      modifies this
      ensures Valid() && Value() == Close(old(Value()), id)
      ensures ok <==> 0 < id <= CONNECTIONS && old(conns)[id - 1].used
    {
      hide Hash, TcpTable.Inv, Chained, Drop;
      if id == 0 || id > CONNECTIONS || !conns[id - 1].used { return false; }
      RemoveEntry(id - 1);
      ok := true;
    }

    /** Retransmits or gives up the connections that wait too long for an answer. */
    method Poll(now: int)
      requires Valid()
      modifies this
      ensures Valid() && Value() == PollFrom(old(Value()), 0, now)
    {
      hide Hash, TcpTable.Inv, Chained, Drop;
      ghost var t := Value();
      var i := 0;
      while i < CONNECTIONS
        invariant i <= CONNECTIONS && Valid() && PollFrom(Value(), i, now) == PollFrom(t, 0, now)
      {
        PollEntry(i, now);
        i := i + 1;
      }
    }

    method PollEntry(i: nat, now: int)
      requires Valid() && i < CONNECTIONS
      modifies this
      ensures Valid() && Value() == PollOne(old(Value()), i, now)
    {
      hide Hash, TcpTable.Inv, Chained, Drop;
      ghost var t := Value();
      if !conns[i].used || conns[i].state != SYN_SENT { return; }
      if (now - conns[i].activity) % TWO_32 >= RETRANSMIT_TICKS {
        var retries := conns[i].retries;
        if retries >= MAX_RETRIES {
          UpdateKeepsInv(t, i, conns[i].(retries := retries + 1));
          conns := conns[i := conns[i].(retries := retries + 1)];
          RemoveEntry(i);
        } else {
          UpdateKeepsInv(t, i, conns[i].(retries := retries + 1, activity := now));
          conns := conns[i := conns[i].(retries := retries + 1, activity := now)];
        }
      }
    }
  }

  lemma NotLinked(t: Table, i: nat)
    requires Inv(t) && i < CONNECTIONS && !t.conns[i].used
    ensures !t.conns[i].linked
  {
    assert ConnOk(t, i);
  }

  lemma HeadCount(next: seq<nat>, heads: seq<nat>, lists: seq<seq<nat>>)
    requires Chained(next, heads, lists)
    ensures |heads| == |lists|
  {
  }

  /** Leaving the link of the entry taken out as it was does no harm. */
  lemma UnlinkedElsewhere(t: Table, next: seq<nat>, heads: seq<nat>, b: nat, k: nat)
    requires Inv(t) && b < BUCKETS && k < |t.chains[b]| && |next| == CONNECTIONS && Chained(next, heads, t.chains)
    ensures t.chains[b][k] < CONNECTIONS && |heads| == BUCKETS
    ensures var xs := t.chains[b]; var p := Before(xs, k, CONNECTIONS);
            && (p == CONNECTIONS <==> k == 0) && p <= CONNECTIONS
            && Chained(if k == 0 then next else next[p := next[xs[k]]],
                       if k == 0 then heads[b := next[xs[k]]] else heads, t.chains[b := xs[..k] + xs[k + 1..]])
  {
    hide TcpTable.Inv, Chained, Chain;
    InvApart(t);
    ChainInTable(t, b);
    var xs := t.chains[b];
    var p := Before(xs, k, CONNECTIONS);
    RemoveChained(next, heads, t.chains, b, k);
    HeadCount(next, heads, t.chains);
    var lists := t.chains[b := xs[..k] + xs[k + 1..]];
    forall r | 0 <= r < BUCKETS ensures xs[k] !in lists[r] { TakenOut(t.chains, b, k, r); }
    FreeLink(Unlink(next, p, xs[k]), if k == 0 then next else next[p := next[xs[k]]],
             if k == 0 then heads[b := next[xs[k]]] else heads, lists, xs[k]);
  }

  lemma TakenOut(lists: seq<seq<nat>>, b: nat, k: nat, r: nat)
    requires Apart(lists) && b < |lists| && r < |lists| && k < |lists[b]|
    ensures lists[b][k] !in lists[b := lists[b][..k] + lists[b][k + 1..]][r]
  {
    assert Distinct(lists[b]);
  }
}
