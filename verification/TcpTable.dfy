/** The TCP connection table and its hash index, as lists of entries per bucket. */
module TcpTable {
  import opened Bits
  import opened Lists

  const CONNECTIONS: nat := 64
  const BUCKETS: nat := 64
  const BACKLOG: nat := 8
  const RETRANSMIT_TICKS: int := 1000
  const MAX_RETRIES: nat := 3

  datatype ConnState = CLOSED | SYN_SENT | SYN_RECEIVED | ESTABLISHED | FIN_WAIT

  datatype Tuple = Tuple(srcIp: bv32, srcPort: bv16, destIp: bv32, destPort: bv16)

  datatype Conn = Conn(used: bool, listener: bool, tuple: Tuple, linked: bool, bucket: nat,
                       state: ConnState, activity: int, retries: nat, pending: nat)

  /** chains[b] lists the connections of bucket b, the latest first; port is the next local port to give out. */
  datatype Table = Table(conns: seq<Conn>, chains: seq<seq<nat>>, port: bv16)

  function Hash(k: Tuple): (b: nat)
    ensures b < BUCKETS
  {
    var h := k.srcIp ^ k.destIp ^ ((k.srcPort as bv32) << 16) ^ (k.destPort as bv32);
    var g := h ^ (h >> 16);
    (g & 63) as bv6 as nat
  }

  /** The tuple of the connection that a segment from k's source to k's destination belongs to. */
  function Reverse(k: Tuple): Tuple { Tuple(k.destIp, k.destPort, k.srcIp, k.srcPort) }

  predicate Serves(c: Conn, k: Tuple) { c.used && !c.listener && c.tuple == k }

  predicate ChainOk(t: Table, b: nat)
    requires b < |t.chains|
  {
    && Distinct(t.chains[b])
    && forall i :: i in t.chains[b] ==> i < |t.conns| && t.conns[i].linked && t.conns[i].bucket == b
  }

  /** Linked are exactly the used connections that do not listen, each in the bucket of its tuple. */
  predicate ConnOk(t: Table, i: nat)
    requires i < |t.conns| && |t.chains| == BUCKETS
  {
    var c := t.conns[i];
    && (c.linked <==> c.used && !c.listener)
    && (c.linked ==> c.bucket == Hash(c.tuple) && i in t.chains[c.bucket])
    && (c.used && c.listener ==> c.tuple.destIp == 0 && c.tuple.destPort == 0)
  }

  predicate Inv(t: Table)
    ensures Inv(t) ==> |t.conns| == CONNECTIONS && |t.chains| == BUCKETS
  {
    && |t.conns| == CONNECTIONS && |t.chains| == BUCKETS
    && (forall b :: 0 <= b < BUCKETS ==> ChainOk(t, b))
    && (forall i :: 0 <= i < CONNECTIONS ==> ConnOk(t, i))
  }

  // ---- Looking up ----

  /** The first connection on xs that serves k. */
  function FirstMatch(conns: seq<Conn>, xs: seq<nat>, k: Tuple): (r: Option<nat>)
    requires forall i :: 0 <= i < |xs| ==> xs[i] < |conns|
    ensures r.Some? ==> r.value in xs && conns[r.value].used && conns[r.value].tuple == k
    ensures r.None? ==> forall i :: i in xs ==> !(conns[i].used && conns[i].tuple == k)
  {
    if xs == [] then None
    else if conns[xs[0]].used && conns[xs[0]].tuple == k then Some(xs[0])
    else
      var r := FirstMatch(conns, xs[1..], k);
      assert xs == [xs[0]] + xs[1..];
      r
  }

  lemma ChainInTable(t: Table, b: nat)
    requires Inv(t) && b < BUCKETS
    ensures Distinct(t.chains[b]) && forall i :: 0 <= i < |t.chains[b]| ==> t.chains[b][i] < CONNECTIONS
  {
    assert ChainOk(t, b);
    assert forall i :: 0 <= i < |t.chains[b]| ==> t.chains[b][i] in t.chains[b];
  }

  /** The connection for a segment that carries k. */
  function Lookup(t: Table, k: Tuple): (r: Option<nat>)
    requires Inv(t)
    ensures r.Some? ==> r.value < CONNECTIONS
  {
    ChainInTable(t, Hash(Reverse(k)));
    FirstMatch(t.conns, t.chains[Hash(Reverse(k))], Reverse(k))
  }

  /** The index finds a connection exactly when a scan of the whole table would. */
  lemma LookupIffScan(t: Table, k: Tuple)
    requires Inv(t)
    ensures Lookup(t, k).Some? <==> exists i :: 0 <= i < CONNECTIONS && Serves(t.conns[i], Reverse(k))
    ensures Lookup(t, k).Some? ==> Serves(t.conns[Lookup(t, k).value], Reverse(k))
  {
    hide Hash;
    var b := Hash(Reverse(k));
    ChainInTable(t, b);
    if Lookup(t, k).Some? {
      assert ChainOk(t, b) && ConnOk(t, Lookup(t, k).value);
    }
    forall i | 0 <= i < CONNECTIONS && Serves(t.conns[i], Reverse(k))
      ensures Lookup(t, k).Some? { assert ConnOk(t, i); }
  }

  /** A scan of all used entries, listeners included, meets the tuple. */
  predicate ScanFinds(t: Table, k: Tuple)
    requires |t.conns| == CONNECTIONS
  {
    exists i :: 0 <= i < CONNECTIONS && t.conns[i].used && t.conns[i].tuple == k
  }

  predicate ListensAt(c: Conn, k: Tuple) { c.used && c.listener && c.tuple == k }

  /** A scan that did not leave out listeners would disagree on one kind of segment only: one that claims to
      come from address zero and port zero, for a listener bound to the very address it is sent to. */
  lemma FullScanAgreesIff(t: Table, k: Tuple)
    requires Inv(t)
    ensures (Lookup(t, k).Some? <==> ScanFinds(t, Reverse(k)))
            <==> Lookup(t, k).Some? || forall i :: 0 <= i < CONNECTIONS ==> !ListensAt(t.conns[i], Reverse(k))
    ensures k.srcIp != 0 || k.srcPort != 0 ==> forall i :: 0 <= i < CONNECTIONS ==> !ListensAt(t.conns[i], Reverse(k))
  {
    hide Hash, Lookup;
    LookupIffScan(t, k);
    forall i | 0 <= i < CONNECTIONS ensures ListensAt(t.conns[i], Reverse(k)) ==> k.srcIp == 0 && k.srcPort == 0 {
      assert ConnOk(t, i);
    }
    if Lookup(t, k).Some? { assert Serves(t.conns[Lookup(t, k).value], Reverse(k)); }
    forall i | 0 <= i < CONNECTIONS && t.conns[i].used && t.conns[i].tuple == Reverse(k)
      ensures Serves(t.conns[i], Reverse(k)) || ListensAt(t.conns[i], Reverse(k))
    {
    }
  }

  // ---- Opening and dropping ----

  function FreeSlot(conns: seq<Conn>, i: nat): (r: nat)
    requires i <= |conns|
    ensures i <= r <= |conns| && (r < |conns| ==> !conns[r].used)
    ensures forall j :: i <= j < r ==> conns[j].used
    decreases |conns| - i
  {
    if i == |conns| || !conns[i].used then i else FreeSlot(conns, i + 1)
  }

  /** Puts a connection into a free entry and in front of its bucket. */
  function Open(t: Table, i: nat, k: Tuple, state: ConnState, activity: int): Table
    requires Inv(t) && i < CONNECTIONS && !t.conns[i].used
  {
    var b := Hash(k);
    t.(conns := t.conns[i := Conn(true, false, k, true, b, state, activity, 0, 0)],
       chains := t.chains[b := [i] + t.chains[b]])
  }

  lemma OpenKeepsInv(t: Table, i: nat, k: Tuple, state: ConnState, activity: int)
    requires Inv(t) && i < CONNECTIONS && !t.conns[i].used
    ensures Inv(Open(t, i, k, state, activity))
  {
    hide Hash;
    var n := Open(t, i, k, state, activity);
    assert ConnOk(t, i);
    forall b | 0 <= b < BUCKETS ensures ChainOk(n, b) {
      assert ChainOk(t, b);
      assert i !in t.chains[b];
    }
    forall j | 0 <= j < CONNECTIONS ensures ConnOk(n, j) { assert ConnOk(t, j); }
  }

  /** Takes an entry out of its bucket, if it is in one, and frees it. */
  function Drop(t: Table, i: nat): Table
    requires Inv(t) && i < CONNECTIONS
  {
    var c := t.conns[i];
    var freed := t.conns[i := c.(used := false, linked := false)];
    assert ConnOk(t, i);
    if c.linked then t.(conns := freed, chains := t.chains[c.bucket := Without(t.chains[c.bucket], i)])
    else t.(conns := freed)
  }

  lemma DropKeepsInv(t: Table, i: nat)
    requires Inv(t) && i < CONNECTIONS
    ensures Inv(Drop(t, i))
  {
    hide Hash;
    var n := Drop(t, i);
    assert ConnOk(t, i);
    forall b | 0 <= b < BUCKETS ensures ChainOk(n, b) {
      assert ChainOk(t, b);
      WithoutDistinct(t.chains[b], i);
    }
    forall j | 0 <= j < CONNECTIONS ensures ConnOk(n, j) { assert ConnOk(t, j); }
  }

  /** Opening and dropping again leaves every bucket as it was. */
  lemma DropUndoesOpen(t: Table, i: nat, k: Tuple, state: ConnState, activity: int)
    requires Inv(t) && i < CONNECTIONS && !t.conns[i].used
    ensures Inv(Open(t, i, k, state, activity))
    ensures Drop(Open(t, i, k, state, activity), i).chains == t.chains
  {
    hide Hash, Without, Distinct;
    OpenKeepsInv(t, i, k, state, activity);
    var b := Hash(k);
    assert ConnOk(t, i) && ChainOk(t, b);
    WithoutFirst(t.chains[b], i);
  }

  /** Changing what is neither the tuple nor the use of a connection does not concern the index. */
  lemma UpdateKeepsInv(t: Table, i: nat, c: Conn)
    requires Inv(t) && i < CONNECTIONS
    requires c.used == t.conns[i].used && c.listener == t.conns[i].listener && c.tuple == t.conns[i].tuple
    requires c.linked == t.conns[i].linked && c.bucket == t.conns[i].bucket
    ensures Inv(t.(conns := t.conns[i := c]))
  {
    hide Hash;
    var n := t.(conns := t.conns[i := c]);
    forall b | 0 <= b < BUCKETS ensures ChainOk(n, b) { assert ChainOk(t, b); }
    forall j | 0 <= j < CONNECTIONS ensures ConnOk(n, j) { assert ConnOk(t, j); }
  }

  // ---- The operations of the stack ----

  const BLANK: Conn := Conn(false, false, Tuple(0, 0, 0, 0), false, 0, CLOSED, 0, 0, 0)

  lemma FillKeepsInv(t: Table, i: nat, c: Conn)
    requires Inv(t) && i < CONNECTIONS && !t.conns[i].used && !c.linked
    requires c.used ==> c.listener && c.tuple.destIp == 0 && c.tuple.destPort == 0
    ensures Inv(t.(conns := t.conns[i := c]))
  {
    hide Hash;
    var n := t.(conns := t.conns[i := c]);
    assert ConnOk(t, i);
    forall b | 0 <= b < BUCKETS ensures ChainOk(n, b) { assert ChainOk(t, b); }
    forall j | 0 <= j < CONNECTIONS ensures ConnOk(n, j) { assert ConnOk(t, j); }
  }

  lemma PortKeepsInv(t: Table, port: bv16)
    requires Inv(t)
    ensures Inv(t.(port := port))
  {
    hide Hash;
    var n := t.(port := port);
    forall b | 0 <= b < BUCKETS ensures ChainOk(n, b) { assert ChainOk(t, b); }
    forall j | 0 <= j < CONNECTIONS ensures ConnOk(n, j) { assert ConnOk(t, j); }
  }

  /** The local port after the one just given out; port zero is never given out. */
  function NextPort(port: bv16): bv16 { if port + 1 == 0 then 30000 else port + 1 }

  /** `device` is the address of the interface towards dest, if there is one; `sent` whether the first
      segment went out. */
  function Connect(t: Table, dest: bv32, port: bv16, device: Option<bv32>, sent: bool, now: int): (n: Table)
    requires Inv(t)
    ensures Inv(n)
  {
    var i := FreeSlot(t.conns, 0);
    if dest == 0 || port == 0 || i == CONNECTIONS then t
    else if device.None? || device.value == 0 then
      FillKeepsInv(t, i, BLANK);
      t.(conns := t.conns[i := BLANK])
    else
      PortKeepsInv(t, NextPort(t.port));
      var m := t.(port := NextPort(t.port));
      var k := Tuple(device.value, t.port, dest, port);
      OpenKeepsInv(m, i, k, SYN_SENT, now);
      var started := Open(m, i, k, SYN_SENT, now);
      DropKeepsInv(started, i);
      if sent then started else Drop(started, i)
  }

  function Listen(t: Table, ip: bv32, port: bv16, backlog: nat): (n: Table)
    requires Inv(t)
    ensures Inv(n)
  {
    var i := FreeSlot(t.conns, 0);
    if port == 0 || backlog == 0 || i == CONNECTIONS then t
    else
      var c := Conn(true, true, Tuple(ip, port, 0, 0), false, 0, CLOSED, 0, 0, 0);
      FillKeepsInv(t, i, c);
      t.(conns := t.conns[i := c])
  }

  predicate ListensFor(c: Conn, ip: bv32, port: bv16) {
    c.used && c.listener && c.tuple.srcPort == port && (c.tuple.srcIp == 0 || c.tuple.srcIp == ip)
  }

  function Listener(conns: seq<Conn>, ip: bv32, port: bv16, i: nat): (r: nat)
    requires i <= |conns|
    ensures i <= r <= |conns| && (r < |conns| ==> ListensFor(conns[r], ip, port))
    ensures forall j :: i <= j < r ==> !ListensFor(conns[j], ip, port)
    decreases |conns| - i
  {
    if i == |conns| || ListensFor(conns[i], ip, port) then i else Listener(conns, ip, port, i + 1)
  }

  /** A first segment that carries k opens a connection if none has it yet and a listener has room. */
  function Arrive(t: Table, k: Tuple, now: int): (n: Table)
    requires Inv(t)
    ensures Inv(n)
  {
    var l := Listener(t.conns, k.destIp, k.destPort, 0);
    var i := FreeSlot(t.conns, 0);
    if Lookup(t, k).Some? || l == CONNECTIONS || t.conns[l].pending >= BACKLOG || i == CONNECTIONS then t
    else
      OpenKeepsInv(t, i, Reverse(k), SYN_RECEIVED, now);
      Open(t, i, Reverse(k), SYN_RECEIVED, now)
  }

  function Close(t: Table, id: nat): (n: Table)
    requires Inv(t)
    ensures Inv(n)
  {
    if id == 0 || id > CONNECTIONS || !t.conns[id - 1].used then t
    else
      DropKeepsInv(t, id - 1);
      Drop(t, id - 1)
  }

  /** The state, clock and backlog of a connection move on. */
  function Advance(t: Table, i: nat, state: ConnState, activity: int, pending: nat): (n: Table)
    requires Inv(t) && i < CONNECTIONS
    ensures Inv(n)
  {
    var c := t.conns[i].(state := state, activity := activity, pending := pending);
    UpdateKeepsInv(t, i, c);
    t.(conns := t.conns[i := c])
  }

  predicate Overdue(c: Conn, now: int) {
    c.used && c.state == SYN_SENT && (now - c.activity) % TWO_32 >= RETRANSMIT_TICKS
  }

  function PollOne(t: Table, i: nat, now: int): (n: Table)
    requires Inv(t) && i < CONNECTIONS
    ensures Inv(n)
  {
    var c := t.conns[i];
    if !Overdue(c, now) then t
    else
      var d := if c.retries >= MAX_RETRIES then c.(retries := c.retries + 1)
               else c.(retries := c.retries + 1, activity := now);
      UpdateKeepsInv(t, i, d);
      var m := t.(conns := t.conns[i := d]);
      DropKeepsInv(m, i);
      if c.retries >= MAX_RETRIES then Drop(m, i) else m
  }

  function PollFrom(t: Table, i: nat, now: int): (n: Table)
    requires Inv(t) && i <= CONNECTIONS
    ensures Inv(n)
    decreases CONNECTIONS - i, |t.conns|
  {
    if i == CONNECTIONS then t else PollFrom(PollOne(t, i, now), i + 1, now)
  }
}
