/** Every run of the TCP stack's operations on the connection table. */
module TcpRuns {
  import opened Bits
  import opened Lists
  import opened TcpTable

  datatype Op =
    | ConnectOp(dest: bv32, port: bv16, device: Option<bv32>, sent: bool, now: int)
    | GiveUpOp(i: nat)
    | ListenOp(ip: bv32, port: bv16, backlog: nat)
    | ArriveOp(k: Tuple, now: int)
    | CloseOp(id: nat)
    | AdvanceOp(i: nat, state: ConnState, activity: int, pending: nat)
    | PollOp(now: int)

  /** A connect that did not reach the established state in time. */
  function GiveUp(t: Table, i: nat): (n: Table)
    requires Inv(t)
    ensures Inv(n)
  {
    if i >= CONNECTIONS || t.conns[i].state == ESTABLISHED then t
    else
      DropKeepsInv(t, i);
      Drop(t, i)
  }

  function Step(t: Table, op: Op): (n: Table)
    requires Inv(t)
    ensures Inv(n)
  {
    match op
    case ConnectOp(dest, port, device, sent, now) => Connect(t, dest, port, device, sent, now)
    case GiveUpOp(i) => GiveUp(t, i)
    case ListenOp(ip, port, backlog) => Listen(t, ip, port, backlog)
    case ArriveOp(k, now) => Arrive(t, k, now)
    case CloseOp(id) => Close(t, id)
    case AdvanceOp(i, state, activity, pending) => if i < CONNECTIONS then
        Advance(t, i, state, activity, pending) else t
    case PollOp(now) => PollFrom(t, 0, now)
  }

  function Run(t: Table, ops: seq<Op>): (n: Table)
    requires Inv(t)
    ensures Inv(n)
    decreases |ops|
  {
    if ops == [] then t else Run(Step(t, ops[0]), ops[1..])
  }

  // ---- One connection per tuple ----

  predicate Unique(t: Table)
    requires |t.conns| == CONNECTIONS
  {
    forall i, j :: 0 <= i < j < CONNECTIONS && Live(t.conns[i]) && Live(t.conns[j]) ==>
        t.conns[i].tuple != t.conns[j].tuple
  }

  predicate Live(c: Conn) { c.used && !c.listener }

  predicate Free(t: Table, k: Tuple)
    requires |t.conns| == CONNECTIONS
  {
    forall i :: 0 <= i < CONNECTIONS ==> !Serves(t.conns[i], k)
  }

  /** With one connection per tuple the index gives the connection itself. */
  lemma LookupExact(t: Table, k: Tuple, i: nat)
    requires Inv(t) && Unique(t) && i < CONNECTIONS
    ensures Lookup(t, k) == Some(i) <==> Serves(t.conns[i], Reverse(k))
  {
    hide Lookup, TcpTable.Inv;
    LookupIffScan(t, k);
    if Serves(t.conns[i], Reverse(k)) {
      var j := Lookup(t, k).value;
      assert Live(t.conns[i]) && Live(t.conns[j]);
    }
  }

  lemma FreeIff(t: Table, k: Tuple)
    requires Inv(t)
    ensures Lookup(t, Reverse(k)).None? <==> Free(t, k)
  {
    hide Lookup, TcpTable.Inv;
    LookupIffScan(t, Reverse(k));
    assert Reverse(Reverse(k)) == k;
  }

  /** Every live connection of n is one of t. */
  predicate NoNew(t: Table, n: Table)
    requires |t.conns| == |n.conns| == CONNECTIONS
  {
    forall i :: 0 <= i < CONNECTIONS ==> (Live(n.conns[i]) ==> Live(t.conns[i]) && n.conns[i].tuple == t.conns[i].tuple)
  }

  lemma NoNewUnique(t: Table, n: Table)
    requires |t.conns| == |n.conns| == CONNECTIONS && NoNew(t, n) && Unique(t)
    ensures Unique(n)
  {
  }

  lemma OpenUniqueIff(t: Table, i: nat, k: Tuple, state: ConnState, now: int)
    requires Inv(t) && Unique(t) && i < CONNECTIONS && !t.conns[i].used
    ensures |Open(t, i, k, state, now).conns| == CONNECTIONS
    ensures Unique(Open(t, i, k, state, now)) <==> Free(t, k)
  {
    hide Hash, TcpTable.Inv;
    var n := Open(t, i, k, state, now);
    if Free(t, k) {
      forall a, b | 0 <= a < b < CONNECTIONS && Live(n.conns[a]) && Live(n.conns[b])
        ensures n.conns[a].tuple != n.conns[b].tuple {
        assert a != i ==> n.conns[a] == t.conns[a];
        assert b != i ==> n.conns[b] == t.conns[b];
      }
    } else {
      var j :| 0 <= j < CONNECTIONS && Serves(t.conns[j], k);
      assert n.conns[j] == t.conns[j] && Live(n.conns[j]) && Live(n.conns[i]);
    }
  }

  /** The tuple a connect would take now. */
  function Wanted(t: Table, dest: bv32, port: bv16, ip: bv32): Tuple { Tuple(ip, t.port, dest, port) }

  predicate Starts(t: Table, op: Op)
    requires Inv(t)
  {
    && op.ConnectOp? && op.dest != 0 && op.port != 0 && op.sent && op.device.Some? && op.device.value != 0
    && FreeSlot(t.conns, 0) < CONNECTIONS
  }

  /** Connecting keeps one connection per tuple exactly when no connection has the next local port to the
      same peer: after the ports have wrapped round, one can. */
  lemma ConnectUniqueIff(t: Table, op: Op)
    requires Inv(t) && Unique(t) && Starts(t, op)
    ensures Unique(Step(t, op)) <==> Lookup(t, Reverse(Wanted(t, op.dest, op.port, op.device.value))).None?
  {
    hide Lookup, Hash, TcpTable.Inv;
    var k := Wanted(t, op.dest, op.port, op.device.value);
    FreeIff(t, k);
    var i := FreeSlot(t.conns, 0);
    PortKeepsInv(t, NextPort(t.port));
    var m := t.(port := NextPort(t.port));
    OpenUniqueIff(m, i, k, SYN_SENT, op.now);
  }

  lemma {:induction false} PollNoNew(t: Table, i: nat, now: int)
    requires Inv(t) && i <= CONNECTIONS
    ensures NoNew(t, PollFrom(t, i, now))
    decreases CONNECTIONS - i
  {
    hide Hash, TcpTable.Inv, Overdue, Without;
    if i < CONNECTIONS { PollNoNew(PollOne(t, i, now), i + 1, now); }
  }

  /** No operation but a connect can bring two connections of one tuple together. */
  lemma OthersKeepUnique(t: Table, op: Op)
    requires Inv(t) && Unique(t) && !Starts(t, op)
    ensures Unique(Step(t, op))
  {
    hide Hash, TcpTable.Inv, Lookup, Without, Unique, Live, PollFrom;
    match op
    case ConnectOp(dest, port, device, sent, now) => ConnectNoNew(t, op);
    case GiveUpOp(i) => OtherNoNew(t, op);
    case ListenOp(ip, port, backlog) => OtherNoNew(t, op);
    case ArriveOp(k, now) => {
      FreeIff(t, Reverse(k));
      assert Reverse(Reverse(Reverse(k))) == Reverse(k) && Reverse(Reverse(k)) == k;
      var i := FreeSlot(t.conns, 0);
      if i < CONNECTIONS { OpenUniqueIff(t, i, Reverse(k), SYN_RECEIVED, now); }
    }
    case CloseOp(id) => OtherNoNew(t, op);
    case AdvanceOp(i, state, activity, pending) => OtherNoNew(t, op);
    case PollOp(now) => {
      PollNoNew(t, 0, now);
      NoNewUnique(t, PollFrom(t, 0, now));
    }
  }

  lemma OtherNoNew(t: Table, op: Op)
    requires Inv(t) && Unique(t) && (op.GiveUpOp? || op.ListenOp? || op.CloseOp? || op.AdvanceOp?)
    ensures Unique(Step(t, op))
  {
    hide Hash, TcpTable.Inv, Without, Unique;
    NoNewUnique(t, Step(t, op));
  }

  lemma ConnectNoNew(t: Table, op: Op)
    requires Inv(t) && Unique(t) && op.ConnectOp? && !Starts(t, op)
    ensures Unique(Step(t, op))
  {
    hide Hash, TcpTable.Inv, Without, Unique;
    NoNewUnique(t, Step(t, op));
  }

  /** Every connect of the run takes a tuple that is not in use. */
  predicate FreshPorts(t: Table, ops: seq<Op>)
    requires Inv(t)
    decreases |ops|
  {
    ops == [] ||
    (&& (Starts(t, ops[0]) ==> Lookup(t, Reverse(Wanted(t, ops[0].dest, ops[0].port, ops[0].device.value))).None?)
     && FreshPorts(Step(t, ops[0]), ops[1..]))
  }

  lemma {:induction false} RunKeepsUnique(t: Table, ops: seq<Op>)
    requires Inv(t) && Unique(t) && FreshPorts(t, ops)
    ensures Unique(Run(t, ops))
    decreases |ops|
  {
    hide Hash, TcpTable.Inv, Lookup, Unique, Step, Starts;
    if ops != [] {
      if Starts(t, ops[0]) { ConnectUniqueIff(t, ops[0]); } else { OthersKeepUnique(t, ops[0]); }
      RunKeepsUnique(Step(t, ops[0]), ops[1..]);
    }
  }

  predicate Start(t: Table) {
    && |t.conns| == CONNECTIONS && |t.chains| == BUCKETS
    && (forall i :: 0 <= i < CONNECTIONS ==> t.conns[i] == BLANK)
    && (forall b :: 0 <= b < BUCKETS ==> t.chains[b] == [])
  }

  /** After every run from the start a segment finds a connection exactly when a scan would, and, as long as
      no local port was given out twice, exactly the connection it belongs to. */
  lemma EveryRunFinds(t: Table, ops: seq<Op>, k: Tuple, i: nat)
    requires Start(t) && i < CONNECTIONS
    ensures Inv(t)
    ensures var n := Run(t, ops);
            && (Lookup(n, k).Some? <==> exists j :: 0 <= j < CONNECTIONS && Serves(n.conns[j], Reverse(k)))
            && (FreshPorts(t, ops) ==> (Lookup(n, k) == Some(i) <==> Serves(n.conns[i], Reverse(k))))
  {
    StartInv(t);
    hide Hash, TcpTable.Inv, Lookup, Unique, Run, FreshPorts;
    LookupIffScan(Run(t, ops), k);
    if FreshPorts(t, ops) {
      RunKeepsUnique(t, ops);
      LookupExact(Run(t, ops), k, i);
    }
  }

  lemma StartInv(t: Table)
    requires Start(t)
    ensures Inv(t) && Unique(t)
  {
    hide Hash;
    forall b | 0 <= b < BUCKETS ensures ChainOk(t, b) {}
    forall i | 0 <= i < CONNECTIONS ensures ConnOk(t, i) {}
  }

  // ---- Ports that come round again ----

  /** A connect from 10.0.0.1 to port 80 of 10.0.0.2. */
  function Dial(sent: bool): Op { ConnectOp(0x0A00_0002, 80, Some(0x0A00_0001), sent, 0) }

  function Dialled(port: bv16): Tuple { Tuple(0x0A00_0001, port, 0x0A00_0002, 80) }

  /** Connects that do not get off, one for every local port from p up to the first one given out. */
  function Around(p: bv16): seq<Op>
    requires p >= 30000
    decreases p != 30000, 0xFFFF - p
  {
    if p == 30000 then [] else [Dial(false)] + Around(NextPort(p))
  }

  /** The first entry holds a connection of that tuple; all others are free, and p is the next port. */
  predicate Waits(t: Table, k: Tuple, p: bv16)
    requires |t.conns| == CONNECTIONS
  {
    Serves(t.conns[0], k) && t.port == p && forall i :: 1 <= i < CONNECTIONS ==> !t.conns[i].used
  }

  lemma SecondSlot(t: Table, k: Tuple, p: bv16)
    requires Inv(t) && Waits(t, k, p)
    ensures FreeSlot(t.conns, 0) == 1
  {
    assert t.conns[0].used;
  }

  lemma MissedDial(t: Table, k: Tuple, p: bv16)
    requires Inv(t) && Waits(t, k, p)
    ensures Waits(Step(t, Dial(false)), k, NextPort(p))
  {
    hide Hash, TcpTable.Inv, Without, FreeSlot;
    SecondSlot(t, k, p);
  }

  lemma {:induction false} GoesRound(t: Table, k: Tuple, p: bv16)
    requires Inv(t) && p >= 30000 && Waits(t, k, p)
    ensures Waits(Run(t, Around(p)), k, 30000)
    decreases p != 30000, 0xFFFF - p
  {
    hide TcpTable.Inv, Step, Waits, Dial;
    if p != 30000 {
      MissedDial(t, k, p);
      var ops := Around(p);
      assert ops[0] == Dial(false) && ops[1..] == Around(NextPort(p));
      GoesRound(Step(t, Dial(false)), k, NextPort(p));
    }
  }

  lemma {:induction false} RunSplit(t: Table, a: seq<Op>, b: seq<Op>)
    requires Inv(t)
    ensures Run(t, a + b) == Run(Run(t, a), b)
    decreases |a|
  {
    hide TcpTable.Inv, Step;
    if a == [] {
      assert a + b == b;
    } else {
      RunSplit(Step(t, a[0]), a[1..], b);
      assert (a + b)[0] == a[0] && (a + b)[1..] == a[1..] + b;
    }
  }

  lemma RunOne(t: Table, op: Op)
    requires Inv(t)
    ensures Run(t, [op]) == Step(t, op)
  {
    hide TcpTable.Inv, Step;
    var ops := [op];
    assert ops[1..] == [];
  }

  lemma FirstDial(t: Table)
    requires Start(t) && t.port == 30000
    ensures Inv(t) && Waits(Step(t, Dial(true)), Dialled(30000), 30001)
  {
    StartInv(t);
    hide Hash, TcpTable.Inv, Without;
    assert FreeSlot(t.conns, 0) == 0;
  }

  lemma SecondDial(t: Table)
    requires Inv(t) && Waits(t, Dialled(30000), 30000)
    ensures !Unique(Step(t, Dial(true)))
  {
    hide Hash, TcpTable.Inv, Without, FreeSlot;
    SecondSlot(t, Dialled(30000), 30000);
    var n := Step(t, Dial(true));
    assert n.conns[0] == t.conns[0] && Live(n.conns[0]) && Live(n.conns[1]) && n.conns[1].tuple == Dialled(30000);
  }

  /** One connection that stays, connects that fail until the local ports have come round, and one more to the
      same peer: two connections have one tuple. */
  lemma PortsComeRound(t: Table)
    requires Start(t) && t.port == 30000
    ensures Inv(t) && !Unique(Run(t, [Dial(true)] + Around(30001) + [Dial(true)]))
  {
    FirstDial(t);
    hide Hash, TcpTable.Inv, Step, Waits, Around, Unique;
    var around := Around(30001);
    var one := Step(t, Dial(true));
    RunSplit(t, [Dial(true)] + around, [Dial(true)]);
    RunSplit(t, [Dial(true)], around);
    RunOne(t, Dial(true));
    GoesRound(one, Dialled(30000), 30001);
    var m := Run(one, around);
    RunOne(m, Dial(true));
    SecondDial(m);
  }
}
