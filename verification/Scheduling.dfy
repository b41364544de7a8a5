/** Ready queues by processor and priority, and wait queues with deadlines, as lists of processes. */
module Scheduling {
  import opened Bits
  import opened Lists

  const CPUS: nat := 16
  const PRIORITIES: nat := 8
  const LISTS: nat := 128

  datatype TaskState = READY | RUNNING | WAITING | ZOMBIE

  datatype Task = Task(state: TaskState, queued: bool, cpu: nat, priority: nat,
                       waiting: Option<nat>, deadline: int, active: bool)

  /** ready[8 c + p] holds the processes of priority p on processor c, in order of arrival. */
  datatype Sched = Sched(tasks: seq<Task>, ready: seq<seq<nat>>, waits: seq<seq<nat>>)

  function CpuOf(t: Task): (c: nat) ensures c < CPUS { if t.cpu < CPUS then t.cpu else 0 }

  function PriorityOf(t: Task): (p: nat) ensures p < PRIORITIES { if t.priority <= 7 then t.priority else 4 }

  function ListOf(t: Task): (q: nat)
    ensures q < LISTS
  {
    CpuOf(t) * PRIORITIES + PriorityOf(t)
  }

  /** The members of a ready list are distinct and flagged, and this is their list. */
  predicate ListOk(s: Sched, q: nat)
    requires q < |s.ready|
  {
    && Distinct(s.ready[q])
    && forall p :: p in s.ready[q] ==> p < |s.tasks| && s.tasks[p].queued && ListOf(s.tasks[p]) == q
  }

  /** The members of a wait queue are distinct and wait on it. */
  predicate WaitOk(s: Sched, w: nat)
    requires w < |s.waits|
  {
    && Distinct(s.waits[w])
    && forall p :: p in s.waits[w] ==> p < |s.tasks| && s.tasks[p].waiting == Some(w)
  }

  /** A flagged process is ready and in its list; a process that waits on a queue is waiting and in that queue. */
  predicate TaskOk(s: Sched, p: nat)
    requires p < |s.tasks| && |s.ready| == LISTS
  {
    var t := s.tasks[p];
    && (t.queued ==> t.state == READY && p in s.ready[ListOf(t)])
    && (t.waiting.Some? ==> t.state == WAITING && t.waiting.value < |s.waits| && p in s.waits[t.waiting.value])
  }

  predicate Inv(s: Sched)
    ensures Inv(s) ==> |s.ready| == LISTS
  {
    && |s.ready| == LISTS
    && (forall q :: 0 <= q < LISTS ==> ListOk(s, q))
    && (forall w :: 0 <= w < |s.waits| ==> WaitOk(s, w))
    && (forall p :: 0 <= p < |s.tasks| ==> TaskOk(s, p))
  }

  // ---- Ready queues ----

  function Enqueue(s: Sched, p: nat): Sched
    requires Inv(s) && p < |s.tasks|
  {
    var t := s.tasks[p];
    if t.state != READY || t.queued then s
    else s.(tasks := s.tasks[p := t.(queued := true)], ready := s.ready[ListOf(t) := s.ready[ListOf(t)] + [p]])
  }

  function Remove(s: Sched, p: nat): Sched
    requires Inv(s) && p < |s.tasks|
  {
    var t := s.tasks[p];
    if !t.queued then s
    else s.(tasks := s.tasks[p := t.(queued := false)],
            ready := s.ready[ListOf(t) := Without(s.ready[ListOf(t)], p)])
  }

  lemma EnqueueKeepsInv(s: Sched, p: nat)
    requires Inv(s) && p < |s.tasks|
    ensures Inv(Enqueue(s, p))
  {
    hide CpuOf, PriorityOf;
    var n, t := Enqueue(s, p), s.tasks[p];
    if n != s {
      var l := ListOf(t);
      assert ListOf(n.tasks[p]) == l by { ListOfFlag(t); }
      forall q | 0 <= q < LISTS ensures ListOk(n, q) {
        assert ListOk(s, q);
        assert p !in s.ready[q];
      }
      forall w | 0 <= w < |n.waits| ensures WaitOk(n, w) { assert WaitOk(s, w); }
      forall y | 0 <= y < |n.tasks| ensures TaskOk(n, y) { assert TaskOk(s, y); }
    }
  }

  lemma ListOfFlag(t: Task)
    ensures forall b, st, w, d, a :: ListOf(Task(st, b, t.cpu, t.priority, w, d, a)) == ListOf(t)
  {
  }

  lemma RemoveKeepsInv(s: Sched, p: nat)
    requires Inv(s) && p < |s.tasks|
    ensures Inv(Remove(s, p))
  {
    hide CpuOf, PriorityOf;
    var n, t := Remove(s, p), s.tasks[p];
    if n != s {
      assert TaskOk(s, p);
      forall q | 0 <= q < LISTS ensures ListOk(n, q) {
        assert ListOk(s, q);
        WithoutDistinct(s.ready[q], p);
      }
      forall w | 0 <= w < |n.waits| ensures WaitOk(n, w) { assert WaitOk(s, w); }
      forall y | 0 <= y < |n.tasks| ensures TaskOk(n, y) { assert TaskOk(s, y); }
    }
  }

  lemma NoLongerQueued(s: Sched, p: nat)
    requires Inv(s) && p < |s.tasks| && s.tasks[p].queued
    ensures var n := Remove(s, p); |n.tasks| == |s.tasks| && !n.tasks[p].queued && n.tasks[p].waiting.None?
  {
    assert TaskOk(s, p);
  }

  /** A processor's processes in the order it serves them: by priority, then by arrival. */
  function Line(s: Sched, cpu: nat, p: nat): seq<nat>
    requires |s.ready| == LISTS && cpu < CPUS && p <= PRIORITIES
    decreases PRIORITIES - p, |s.tasks|
  {
    if p == PRIORITIES then [] else Level(s, cpu, p) + Line(s, cpu, p + 1)
  }

  function Level(s: Sched, cpu: nat, p: nat): seq<nat>
    requires |s.ready| == LISTS && cpu < CPUS && p < PRIORITIES
  {
    s.ready[cpu * PRIORITIES + p]
  }

  /** The head of the first non-empty list of the processor from priority p on. */
  function Peek(s: Sched, cpu: nat, p: nat): (r: Option<nat>)
    requires Inv(s) && cpu < CPUS && p <= PRIORITIES
    ensures r.Some? ==> r.value < |s.tasks| && s.tasks[r.value].queued
    decreases PRIORITIES - p, |s.tasks|
  {
    if p == PRIORITIES then None
    else if Level(s, cpu, p) != [] then
      assert ListOk(s, cpu * PRIORITIES + p);
      assert Level(s, cpu, p)[0] in s.ready[cpu * PRIORITIES + p];
      Some(Level(s, cpu, p)[0])
    else Peek(s, cpu, p + 1)
  }

  function Dequeue(s: Sched, cpu: nat): (Sched, Option<nat>)
    requires Inv(s) && cpu < CPUS
  {
    match Peek(s, cpu, 0)
    case None => (s, None)
    case Some(p) => (Remove(s, p), Some(p))
  }

  lemma ListOfTask(t: Task, cpu: nat, p: nat)
    requires cpu < CPUS && p < PRIORITIES
    ensures ListOf(t) == cpu * PRIORITIES + p <==> CpuOf(t) == cpu && PriorityOf(t) == p
  {
  }

  /** Two states that agree on a processor's lists have the same line. */
  lemma {:induction false} SameLine(s: Sched, n: Sched, cpu: nat, p: nat)
    requires |s.ready| == |n.ready| == LISTS && cpu < CPUS && p <= PRIORITIES
    requires forall k :: p <= k < PRIORITIES ==> Level(s, cpu, k) == Level(n, cpu, k)
    ensures Line(s, cpu, p) == Line(n, cpu, p)
    decreases PRIORITIES - p
  {
    if p < PRIORITIES { SameLine(s, n, cpu, p + 1); }
  }

  lemma RemoveLevel(s: Sched, y: nat, cpu: nat, k: nat)
    requires Inv(s) && y < |s.tasks| && s.tasks[y].queued && cpu < CPUS && k < PRIORITIES
    ensures |Remove(s, y).ready| == LISTS
    ensures Level(Remove(s, y), cpu, k) == Without(Level(s, cpu, k), y)
  {
    hide CpuOf, PriorityOf;
    var q := cpu * PRIORITIES + k;
    assert ListOk(s, q);
    if ListOf(s.tasks[y]) != q { WithoutOther(Level(s, cpu, k), y); }
  }

  lemma LaterLevels(s: Sched, y: nat, cpu: nat, p: nat)
    requires Inv(s) && cpu < CPUS && p < PRIORITIES && y in Level(s, cpu, p)
    requires y < |s.tasks| && s.tasks[y].queued
    ensures |Remove(s, y).ready| == LISTS
    ensures Line(Remove(s, y), cpu, p + 1) == Line(s, cpu, p + 1)
  {
    hide Remove, Without, Inv, Line, Level;
    RemoveLevel(s, y, cpu, p);
    forall k | p + 1 <= k < PRIORITIES ensures Level(s, cpu, k) == Level(Remove(s, y), cpu, k) {
      RemoveLevel(s, y, cpu, k);
      NotElsewhere(s, y, cpu, p, k);
      WithoutOther(Level(s, cpu, k), y);
    }
    SameLine(s, Remove(s, y), cpu, p + 1);
  }

  /** Taking the head of the best list takes the head of the line. */
  lemma {:induction false} HeadOfLine(s: Sched, n: Sched, cpu: nat, p: nat)
    requires Inv(s) && cpu < CPUS && p <= PRIORITIES && Peek(s, cpu, p).Some?
    requires n == Remove(s, Peek(s, cpu, p).value)
    ensures |n.ready| == LISTS
    ensures Line(s, cpu, p) == [Peek(s, cpu, p).value] + Line(n, cpu, p)
    decreases PRIORITIES - p
  {
    hide Remove, Without, Inv, Level;
    var y := Peek(s, cpu, p).value;
    var xs := Level(s, cpu, p);
    RemoveLevel(s, y, cpu, p);
    if xs != [] {
      LevelDistinct(s, cpu, p);
      WithoutAt(xs, 0);
      assert xs == [y] + xs[1..];
      LaterLevels(s, y, cpu, p);
    } else {
      WithoutOther(xs, y);
      HeadOfLine(s, n, cpu, p + 1);
    }
  }

  lemma LevelDistinct(s: Sched, cpu: nat, p: nat)
    requires Inv(s) && cpu < CPUS && p < PRIORITIES
    ensures Distinct(Level(s, cpu, p))
  {
    assert ListOk(s, cpu * PRIORITIES + p);
  }

  lemma NotElsewhere(s: Sched, y: nat, cpu: nat, p: nat, k: nat)
    requires Inv(s) && cpu < CPUS && p < k < PRIORITIES && y in Level(s, cpu, p)
    ensures y !in Level(s, cpu, k)
  {
    assert ListOk(s, cpu * PRIORITIES + p) && ListOk(s, cpu * PRIORITIES + k);
  }

  /** Removing a process leaves the lines of the other processors alone. */
  lemma OtherLines(s: Sched, p: nat, cpu: nat)
    requires Inv(s) && p < |s.tasks| && cpu < CPUS && cpu != CpuOf(s.tasks[p])
    ensures |Remove(s, p).ready| == LISTS && Line(Remove(s, p), cpu, 0) == Line(s, cpu, 0)
  {
    var n := Remove(s, p);
    forall k | 0 <= k < PRIORITIES ensures Level(s, cpu, k) == Level(n, cpu, k) { ListOfTask(s.tasks[p], cpu, k); }
    SameLine(s, n, cpu, 0);
  }

  lemma {:induction false} PeekIff(s: Sched, cpu: nat, p: nat)
    requires Inv(s) && cpu < CPUS && p <= PRIORITIES
    ensures Peek(s, cpu, p).None? <==> Line(s, cpu, p) == []
    ensures Peek(s, cpu, p).Some? ==> CpuOf(s.tasks[Peek(s, cpu, p).value]) == cpu
    decreases PRIORITIES - p
  {
    if p < PRIORITIES {
      PeekIff(s, cpu, p + 1);
      if Level(s, cpu, p) != [] {
        var y := Level(s, cpu, p)[0];
        assert ListOk(s, cpu * PRIORITIES + p);
        assert y in s.ready[cpu * PRIORITIES + p];
        ListOfTask(s.tasks[y], cpu, p);
      }
    }
  }

  /** A processor serves its line from the front, and only its own. */
  lemma DequeueServesLine(s: Sched, cpu: nat)
    requires Inv(s) && cpu < CPUS
    ensures var (n, r) := Dequeue(s, cpu);
            && Inv(n)
            && (r.None? <==> Line(s, cpu, 0) == []) && (r.None? ==> n == s)
            && (r.Some? ==> Line(s, cpu, 0) == [r.value] + Line(n, cpu, 0))
            && (forall c :: 0 <= c < CPUS && c != cpu ==> Line(n, c, 0) == Line(s, c, 0))
  {
    hide Line, Remove, Level, CpuOf, PriorityOf, ListOf;
    PeekIff(s, cpu, 0);
    if Peek(s, cpu, 0).Some? {
      var y := Peek(s, cpu, 0).value;
      RemoveKeepsInv(s, y);
      HeadOfLine(s, Remove(s, y), cpu, 0);
      forall c | 0 <= c < CPUS && c != cpu ensures Line(Remove(s, y), c, 0) == Line(s, c, 0) { OtherLines(s, y, c); }
    }
  }

  /** The next k processes a processor takes. */
  function Serve(s: Sched, cpu: nat, k: nat): seq<nat>
    requires Inv(s) && cpu < CPUS
    decreases k
  {
    if k == 0 then []
    else
      var (n, r) := Dequeue(s, cpu);
      DequeueServesLine(s, cpu);
      if r.None? then [] else [r.value] + Serve(n, cpu, k - 1)
  }

  /** Service is first come first served within each priority, the best priority first. */
  lemma {:induction false} ServedInOrder(s: Sched, cpu: nat, k: nat)
    requires Inv(s) && cpu < CPUS
    ensures Serve(s, cpu, k) == if k <= |Line(s, cpu, 0)| then Line(s, cpu, 0)[..k] else Line(s, cpu, 0)
    decreases k
  {
    hide Line, Dequeue;
    if k > 0 {
      var (n, r) := Dequeue(s, cpu);
      DequeueServesLine(s, cpu);
      if r.Some? { ServedInOrder(n, cpu, k - 1); }
    }
  }
}
