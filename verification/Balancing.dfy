/** An idle processor takes one process from the first processor that has two to spare. */
module Balancing {
  import opened Bits
  import opened Scheduling

  function Limit(total: nat): (t: nat) ensures t <= CPUS && t <= total { if total > CPUS then CPUS else total }

  predicate Busy(s: Sched, local: nat, c: nat)
    requires |s.ready| == LISTS && c < CPUS
  {
    c != local && |Line(s, c, 0)| >= 2
  }

  function FirstBusy(s: Sched, local: nat, total: nat, c: nat): (r: Option<nat>)
    requires Inv(s) && c <= total <= CPUS
    ensures r.Some? ==> c <= r.value < total && Busy(s, local, r.value)
    ensures forall k :: c <= k < (if r.Some? then r.value else total) ==> !Busy(s, local, k)
    decreases total - c
  {
    if c == total then None else if Busy(s, local, c) then Some(c) else FirstBusy(s, local, total, c + 1)
  }

  /** Reassigning a process that is in no ready list keeps the discipline. */
  lemma ReassignKeepsInv(s: Sched, y: nat, t: Task)
    requires Inv(s) && y < |s.tasks| && !s.tasks[y].queued && !t.queued && t.waiting == s.tasks[y].waiting
    requires t.waiting.Some? ==> t.state == s.tasks[y].state
    ensures Inv(s.(tasks := s.tasks[y := t]))
  {
    hide ListOf;
    var n := s.(tasks := s.tasks[y := t]);
    forall q | 0 <= q < LISTS ensures ListOk(n, q) { assert ListOk(s, q); }
    forall w | 0 <= w < |n.waits| ensures WaitOk(n, w) { assert WaitOk(s, w); }
    forall p | 0 <= p < |n.tasks| ensures TaskOk(n, p) { assert TaskOk(s, p); }
  }

  function Reassign(s: Sched, y: nat, local: nat): (n: Sched)
    requires Inv(s) && y < |s.tasks| && !s.tasks[y].queued
    ensures Inv(n) && n.ready == s.ready && n.waits == s.waits && |n.tasks| == |s.tasks|
  {
    ReassignKeepsInv(s, y, s.tasks[y].(cpu := local));
    s.(tasks := s.tasks[y := s.tasks[y].(cpu := local)])
  }

  function Move(s: Sched, y: nat, local: nat): Sched
    requires Inv(s) && y < |s.tasks| && local < CPUS && s.tasks[y].queued
  {
    RemoveKeepsInv(s, y);
    Enqueue(Reassign(Remove(s, y), y, local), y)
  }

  function Balance(s: Sched, local: nat, total: nat): Sched
    requires Inv(s) && local < CPUS
  {
    if total < 2 || Line(s, local, 0) != [] then s
    else
      match FirstBusy(s, local, Limit(total), 0)
      case None => s
      case Some(c) =>
        PeekIff(s, c, 0);
        Move(s, Peek(s, c, 0).value, local)
  }

  // ---- What it changes ----

  lemma EnqueueOtherLine(s: Sched, p: nat, cpu: nat)
    requires Inv(s) && p < |s.tasks| && cpu < CPUS && cpu != CpuOf(s.tasks[p])
    ensures |Enqueue(s, p).ready| == LISTS && Line(Enqueue(s, p), cpu, 0) == Line(s, cpu, 0)
  {
    hide CpuOf, PriorityOf, Line;
    var n := Enqueue(s, p);
    forall k | 0 <= k < PRIORITIES ensures Level(s, cpu, k) == Level(n, cpu, k) { ListOfTask(s.tasks[p], cpu, k); }
    SameLine(s, n, cpu, 0);
  }

  /** The part of a line from priority k up to priority e. */
  function Front(s: Sched, cpu: nat, k: nat, e: nat): seq<nat>
    requires |s.ready| == LISTS && cpu < CPUS && k <= e <= PRIORITIES
    decreases e - k, |s.tasks|
  {
    if k == e then [] else Level(s, cpu, k) + Front(s, cpu, k + 1, e)
  }

  lemma {:induction false} LineSplit(s: Sched, cpu: nat, k: nat, e: nat)
    requires |s.ready| == LISTS && cpu < CPUS && k <= e <= PRIORITIES
    ensures Line(s, cpu, k) == Front(s, cpu, k, e) + Line(s, cpu, e)
    decreases e - k
  {
    hide Level;
    if k < e { LineSplit(s, cpu, k + 1, e); }
  }

  lemma {:induction false} FrontGrows(s: Sched, n: Sched, p: nat, cpu: nat, k: nat, e: nat)
    requires |s.ready| == |n.ready| == LISTS && cpu < CPUS && k < e <= PRIORITIES
    requires forall i :: k <= i < e - 1 ==> Level(n, cpu, i) == Level(s, cpu, i)
    requires Level(n, cpu, e - 1) == Level(s, cpu, e - 1) + [p]
    ensures Front(n, cpu, k, e) == Front(s, cpu, k, e) + [p]
    decreases e - k
  {
    hide Level;
    if k + 1 == e {
      assert Front(s, cpu, e, e) == Front(n, cpu, e, e) == [];
    } else {
      FrontGrows(s, n, p, cpu, k + 1, e);
    }
  }

  /** A process is put behind those of its own and better priorities and before the rest; nobody else moves. */
  lemma EnqueueOwnLine(s: Sched, p: nat)
    requires Inv(s) && p < |s.tasks| && s.tasks[p].state == READY && !s.tasks[p].queued
    ensures var n, c, e := Enqueue(s, p), CpuOf(s.tasks[p]), PriorityOf(s.tasks[p]) + 1;
            && |n.ready| == LISTS
            && Line(s, c, 0) == Front(s, c, 0, e) + Line(s, c, e)
            && Line(n, c, 0) == Front(s, c, 0, e) + [p] + Line(s, c, e)
  {
    hide Line, Front, CpuOf, PriorityOf;
    var n, c, e := Enqueue(s, p), CpuOf(s.tasks[p]), PriorityOf(s.tasks[p]) + 1;
    forall k | 0 <= k < PRIORITIES
      ensures Level(n, c, k) == if k == e - 1 then Level(s, c, k) + [p] else Level(s, c, k)
    {
      ListOfTask(s.tasks[p], c, k);
    }
    LineSplit(s, c, 0, e);
    LineSplit(n, c, 0, e);
    FrontGrows(s, n, p, c, 0, e);
    SameLine(s, n, c, e);
  }

  lemma MoveEffect(s: Sched, c: nat, local: nat)
    requires Inv(s) && local < CPUS && c < CPUS && c != local && Line(s, local, 0) == [] && |Line(s, c, 0)| >= 2
    ensures Peek(s, c, 0).Some?
    ensures var y := Peek(s, c, 0).value; var n := Move(s, y, local);
            && Inv(n) && n.waits == s.waits
            && n.tasks == s.tasks[y := s.tasks[y].(cpu := local)]
            && Line(s, c, 0) == [y] + Line(n, c, 0)
            && Line(n, local, 0) == [y]
            && (forall k :: 0 <= k < CPUS && k != c && k != local ==> Line(n, k, 0) == Line(s, k, 0))
  {
    hide Line, Level, ListOf, Front, PriorityOf;
    PeekIff(s, c, 0);
    var y := Peek(s, c, 0).value;
    assert TaskOk(s, y);
    var a := Remove(s, y);
    RemoveKeepsInv(s, y);
    var b := Reassign(a, y, local);
    var n := Enqueue(b, y);
    EnqueueKeepsInv(b, y);
    HeadOfLine(s, a, c, 0);
    forall k | 0 <= k < CPUS && k != c ensures Line(b, k, 0) == Line(s, k, 0) {
      OtherLines(s, y, k);
      LineOfReady(a, b, k);
    }
    LineOfReady(a, b, c);
    forall k | 0 <= k < CPUS && k != local ensures Line(n, k, 0) == Line(b, k, 0) { EnqueueOtherLine(b, y, k); }
    EnqueueOwnLine(b, y);
  }

  lemma LineOfReady(a: Sched, b: Sched, cpu: nat)
    requires |a.ready| == LISTS && a.ready == b.ready && cpu < CPUS
    ensures Line(a, cpu, 0) == Line(b, cpu, 0)
  {
    forall k | 0 <= k < PRIORITIES ensures Level(a, cpu, k) == Level(b, cpu, k) {}
    SameLine(a, b, cpu, 0);
  }

  /** Some processor below the limit has two processes to spare. */
  predicate Spare(s: Sched, local: nat, total: nat)
    requires Inv(s)
  {
    exists c: nat :: c < Limit(total) && Busy(s, local, c)
  }

  /** What balancing does to the lines of the processors: nothing, or one process changes places and its source
      keeps at least one. */
  predicate Moved(s: Sched, n: Sched, local: nat, c: nat)
    requires Inv(s) && Inv(n) && local < CPUS && c < CPUS
  {
    && c != local && Line(n, c, 0) != []
    && Line(s, c, 0) == Line(n, local, 0) + Line(n, c, 0)
    && |Line(n, local, 0)| == 1
    && forall k :: 0 <= k < CPUS && k != c && k != local ==> Line(n, k, 0) == Line(s, k, 0)
  }

  lemma BusyMoves(s: Sched, local: nat, c: nat)
    requires Inv(s) && local < CPUS && c < CPUS && Line(s, local, 0) == [] && Busy(s, local, c)
    ensures Peek(s, c, 0).Some?
    ensures var n := Move(s, Peek(s, c, 0).value, local);
            && n != s && Inv(n) && n.waits == s.waits && |n.tasks| == |s.tasks|
            && Moved(s, n, local, c)
            && (forall p :: 0 <= p < |s.tasks| ==> n.tasks[p].queued == s.tasks[p].queued)
  {
    hide Line, Level, ListOf, PriorityOf, CpuOf, Move, Inv;
    MoveEffect(s, c, local);
  }

  lemma BalanceEffect(s: Sched, local: nat, total: nat)
    requires Inv(s) && local < CPUS
    ensures var n := Balance(s, local, total);
            && Inv(n) && n.waits == s.waits && |n.tasks| == |s.tasks|
            && (forall p :: 0 <= p < |s.tasks| ==> n.tasks[p].queued == s.tasks[p].queued)
            && (n != s <==> total >= 2 && Line(s, local, 0) == [] && Spare(s, local, total))
            && (n != s ==> exists c: nat :: c < Limit(total) && Moved(s, n, local, c))
  {
    hide Line, Level, ListOf, PriorityOf, CpuOf, Move, Inv, Busy, Moved;
    if total >= 2 && Line(s, local, 0) == [] {
      match FirstBusy(s, local, Limit(total), 0)
      case None =>
      case Some(c) => BusyMoves(s, local, c);
    }
  }
}
