/** Every run of ready-queue and wait-queue operations. */
module QueueRuns {
  import opened Bits
  import opened Scheduling
  import opened Balancing
  import opened Waiting
  import opened Timeouts

  datatype Op =
    | EnqueueOp(p: nat)
    | RemoveOp(p: nat)
    | DispatchOp(cpu: nat)
    | PreemptOp(p: nat)
    | BalanceOp(local: nat, total: nat)
    | SleepOp(p: nat, w: nat, deadline: int)
    | WakeOneOp(w: nat)
    | WakeAllOp(w: nat)
    | PollOp(now: int)

  /** The first process of the line starts to run. */
  function Dispatch(s: Sched, cpu: nat): (n: Sched)
    requires Inv(s) && cpu < CPUS
    ensures Inv(n)
  {
    DequeueServesLine(s, cpu);
    PeekIff(s, cpu, 0);
    var (m, r) := Dequeue(s, cpu);
    if r.None? then m
    else
      NoLongerQueued(s, r.value);
      ReassignKeepsInv(m, r.value, m.tasks[r.value].(state := RUNNING));
      m.(tasks := m.tasks[r.value := m.tasks[r.value].(state := RUNNING)])
  }

  /** A running process goes back to the end of its ready list. */
  function Preempt(s: Sched, p: nat): (n: Sched)
    requires Inv(s) && p < |s.tasks|
    ensures Inv(n)
  {
    if s.tasks[p].state != RUNNING then s
    else
      assert TaskOk(s, p);
      ReassignKeepsInv(s, p, s.tasks[p].(state := READY));
      var m := s.(tasks := s.tasks[p := s.tasks[p].(state := READY)]);
      EnqueueKeepsInv(m, p);
      Enqueue(m, p)
  }

  /** What the caller of an operation owes it: an entry of the table, and only a running process goes to sleep. */
  predicate Allowed(s: Sched, op: Op) {
    match op
    case EnqueueOp(p) => p < |s.tasks|
    case RemoveOp(p) => p < |s.tasks|
    case DispatchOp(cpu) => cpu < CPUS
    case PreemptOp(p) => p < |s.tasks|
    case BalanceOp(local, _) => local < CPUS
    case SleepOp(p, w, _) => p < |s.tasks| && w < |s.waits| && s.tasks[p].state == RUNNING
    case WakeOneOp(w) => w < |s.waits|
    case WakeAllOp(w) => w < |s.waits|
    case PollOp(_) => true
  }

  function Step(s: Sched, op: Op): Sched
    requires Inv(s)
  {
    if !Allowed(s, op) then s
    else
      match op
      case EnqueueOp(p) => Enqueue(s, p)
      case RemoveOp(p) => Remove(s, p)
      case DispatchOp(cpu) => Dispatch(s, cpu)
      case PreemptOp(p) => Preempt(s, p)
      case BalanceOp(local, total) => Balance(s, local, total)
      case SleepOp(p, w, deadline) => Sleep(s, p, w, deadline)
      case WakeOneOp(w) => WakeOne(s, w)
      case WakeAllOp(w) => WakeAll(s, w)
      case PollOp(now) => Poll(s, now)
  }

  lemma StepKeepsInv(s: Sched, op: Op)
    requires Inv(s)
    ensures Inv(Step(s, op))
  {
    hide Inv, Enqueue, Remove, Dispatch, Preempt, Balance, Sleep, WakeOne, WakeAll, Poll, PolledFrom, TaskOk;
    if Allowed(s, op) {
      match op
      case EnqueueOp(p) => EnqueueKeepsInv(s, p);
      case RemoveOp(p) => RemoveKeepsInv(s, p);
      case DispatchOp(cpu) =>
      case PreemptOp(p) =>
      case BalanceOp(local, total) => BalanceEffect(s, local, total);
      case SleepOp(p, w, deadline) => SleeperTimesOutIff(s, p, w, deadline, 0);
      case WakeOneOp(w) => WakeOneEffect(s, w);
      case WakeAllOp(w) => WakeAllEffect(s, w);
      case PollOp(now) => PollEffect(s, now);
    }
  }

  function Run(s: Sched, ops: seq<Op>): Sched
    requires Inv(s)
    decreases |ops|
  {
    if ops == [] then s
    else
      StepKeepsInv(s, ops[0]);
      Run(Step(s, ops[0]), ops[1..])
  }

  predicate InReadyList(s: Sched, q: nat, p: nat) { q < |s.ready| && p in s.ready[q] }

  predicate InWaitQueue(s: Sched, w: nat, p: nat) { w < |s.waits| && p in s.waits[w] }

  /** Where a process can be: in the list its processor and priority name, exactly when it is flagged; in the
      queue it waits on; never in two places. */
  ghost predicate InOnePlace(s: Sched, p: nat)
    requires p < |s.tasks|
  {
    && (forall q: nat :: InReadyList(s, q, p) <==> s.tasks[p].queued && q == ListOf(s.tasks[p]))
    && (forall w: nat :: InWaitQueue(s, w, p) <==> s.tasks[p].waiting == Some(w))
    && !(s.tasks[p].queued && s.tasks[p].waiting.Some?)
  }

  lemma InvPlaces(s: Sched, p: nat)
    requires Inv(s) && p < |s.tasks|
    ensures InOnePlace(s, p)
  {
    hide ListOf;
    assert TaskOk(s, p);
    forall q: nat ensures InReadyList(s, q, p) <==> s.tasks[p].queued && q == ListOf(s.tasks[p]) {
      if q < LISTS { assert ListOk(s, q); }
    }
    forall w: nat ensures InWaitQueue(s, w, p) <==> s.tasks[p].waiting == Some(w) {
      if w < |s.waits| { assert WaitOk(s, w); }
    }
  }

  /** A table of processes that are in no list. */
  predicate Fresh(s: Sched) {
    && |s.ready| == LISTS
    && (forall q :: 0 <= q < LISTS ==> s.ready[q] == [])
    && (forall w :: 0 <= w < |s.waits| ==> s.waits[w] == [])
    && (forall p :: 0 <= p < |s.tasks| ==> !s.tasks[p].queued && s.tasks[p].waiting.None?)
  }

  lemma {:induction false} RunKeepsPlaces(s: Sched, ops: seq<Op>)
    requires Inv(s)
    ensures Inv(Run(s, ops))
    ensures forall p :: 0 <= p < |Run(s, ops).tasks| ==> InOnePlace(Run(s, ops), p)
    decreases |ops|
  {
    hide InOnePlace, Inv, Step;
    if ops == [] {
      forall p | 0 <= p < |s.tasks| ensures InOnePlace(s, p) { InvPlaces(s, p); }
    } else {
      StepKeepsInv(s, ops[0]);
      RunKeepsPlaces(Step(s, ops[0]), ops[1..]);
    }
  }

  /** From empty queues, every process is in one place at most after every run. */
  lemma EveryRunInOnePlace(s: Sched, ops: seq<Op>)
    requires Fresh(s)
    ensures Inv(s)
    ensures forall p :: 0 <= p < |Run(s, ops).tasks| ==> InOnePlace(Run(s, ops), p)
  {
    hide ListOf;
    RunKeepsPlaces(s, ops);
  }
}
