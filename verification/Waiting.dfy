/** Sleeping on a wait queue, waking from it, and waking those whose deadline has passed. */
module Waiting {
  import opened Bits
  import opened Lists
  import opened Scheduling

  function Asleep(t: Task, w: nat, deadline: int): Task {
    t.(state := WAITING, waiting := Some(w), deadline := deadline, active := deadline != 0)
  }

  function Sleep(s: Sched, p: nat, w: nat, deadline: int): Sched
    requires |s.ready| == LISTS && p < |s.tasks| && w < |s.waits|
  {
    if s.tasks[p].state == ZOMBIE then s
    else s.(tasks := s.tasks[p := Asleep(s.tasks[p], w, deadline)], waits := s.waits[w := s.waits[w] + [p]])
  }

  /** Going to sleep keeps the discipline exactly when the process is neither asleep already nor ready to run. */
  lemma SleepKeepsInvIff(s: Sched, p: nat, w: nat, deadline: int)
    requires Inv(s) && p < |s.tasks| && w < |s.waits| && s.tasks[p].state != ZOMBIE
    ensures Inv(Sleep(s, p, w, deadline)) <==> !s.tasks[p].queued && s.tasks[p].waiting.None?
  {
    hide CpuOf, PriorityOf;
    var n, t := Sleep(s, p, w, deadline), s.tasks[p];
    assert TaskOk(s, p);
    if !t.queued && t.waiting.None? {
      ListOfFlag(t);
      forall q | 0 <= q < LISTS ensures ListOk(n, q) { assert ListOk(s, q); }
      forall v | 0 <= v < |n.waits| ensures WaitOk(n, v) {
        assert WaitOk(s, v);
        assert p !in s.waits[v];
      }
      forall y | 0 <= y < |n.tasks| ensures TaskOk(n, y) { assert TaskOk(s, y); }
    } else if t.queued {
      assert !TaskOk(n, p);
    } else {
      var v := t.waiting.value;
      var i :| 0 <= i < |s.waits[v]| && s.waits[v][i] == p;
      assert n.waits[v][i] == p;
      assert n.waits[w][|s.waits[w]|] == p;
      assert !WaitOk(n, v);
    }
  }

  function Awake(t: Task): Task {
    t.(state := READY, waiting := None, deadline := 0, active := false)
  }

  function Release(s: Sched, p: nat): Sched
    requires Inv(s) && p < |s.tasks| && s.tasks[p].waiting.Some?
  {
    assert TaskOk(s, p);
    var w := s.tasks[p].waiting.value;
    s.(tasks := s.tasks[p := Awake(s.tasks[p])], waits := s.waits[w := Without(s.waits[w], p)])
  }

  lemma ReleaseKeepsInv(s: Sched, p: nat)
    requires Inv(s) && p < |s.tasks| && s.tasks[p].waiting.Some?
    ensures Inv(Release(s, p))
  {
    hide CpuOf, PriorityOf;
    var n, t := Release(s, p), s.tasks[p];
    assert TaskOk(s, p);
    forall q | 0 <= q < LISTS ensures ListOk(n, q) { assert ListOk(s, q); }
    forall v | 0 <= v < |n.waits| ensures WaitOk(n, v) {
      assert WaitOk(s, v);
      WithoutDistinct(s.waits[v], p);
    }
    forall y | 0 <= y < |n.tasks| ensures TaskOk(n, y) { assert TaskOk(s, y); }
  }

  /** Takes a process out of its wait queue and puts it at the end of its ready list. */
  function Wake(s: Sched, p: nat): (n: Sched)
    requires Inv(s) && p < |s.tasks| && s.tasks[p].waiting.Some?
  {
    ReleaseKeepsInv(s, p);
    Enqueue(Release(s, p), p)
  }

  lemma WakeEffect(s: Sched, p: nat)
    requires Inv(s) && p < |s.tasks| && s.tasks[p].waiting.Some?
    ensures var n, t := Wake(s, p), s.tasks[p];
            && Inv(n) && t.waiting.value < |s.waits|
            && n.tasks == s.tasks[p := Awake(t).(queued := true)]
            && n.waits == s.waits[t.waiting.value := Without(s.waits[t.waiting.value], p)]
            && n.ready == s.ready[ListOf(t) := s.ready[ListOf(t)] + [p]]
  {
    assert TaskOk(s, p);
    ReleaseKeepsInv(s, p);
    EnqueueKeepsInv(Release(s, p), p);
    ListOfFlag(s.tasks[p]);
    assert ListOf(Awake(s.tasks[p])) == ListOf(s.tasks[p]);
  }

  function WakeOne(s: Sched, w: nat): Sched
    requires Inv(s) && w < |s.waits|
  {
    if s.waits[w] == [] then s
    else
      assert WaitOk(s, w);
      assert s.waits[w][0] in s.waits[w];
      Wake(s, s.waits[w][0])
  }

  /** Waking one takes the longest waiter and leaves the others in order. */
  lemma WakeOneEffect(s: Sched, w: nat)
    requires Inv(s) && w < |s.waits|
    ensures Inv(WakeOne(s, w))
    ensures s.waits[w] != [] ==>
              var n, p := WakeOne(s, w), s.waits[w][0];
              && p < |s.tasks|
              && n.tasks == s.tasks[p := Awake(s.tasks[p]).(queued := true)]
              && n.waits == s.waits[w := s.waits[w][1..]]
              && n.ready == s.ready[ListOf(s.tasks[p]) := s.ready[ListOf(s.tasks[p])] + [p]]
  {
    hide ListOf;
    if s.waits[w] != [] {
      assert WaitOk(s, w);
      assert s.waits[w][0] in s.waits[w];
      WakeEffect(s, s.waits[w][0]);
      WithoutAt(s.waits[w], 0);
      assert s.waits[w][..0] + s.waits[w][1..] == s.waits[w][1..];
    }
  }

  function WakeAll(s: Sched, w: nat): Sched
    requires Inv(s) && w < |s.waits|
    decreases |s.waits[w]|
  {
    if s.waits[w] == [] then s
    else
      WakeOneEffect(s, w);
      WakeAll(WakeOne(s, w), w)
  }

  predicate InRange(xs: seq<nat>, n: nat) { forall i :: 0 <= i < |xs| ==> xs[i] < n }

  /** The members of xs whose ready list is q, in order. */
  function OnList(tasks: seq<Task>, xs: seq<nat>, q: nat): seq<nat>
    requires InRange(xs, |tasks|)
  {
    if xs == [] then []
    else (if ListOf(tasks[xs[0]]) == q then [xs[0]] else []) + OnList(tasks, xs[1..], q)
  }

  /** Changing processes outside xs, or only their waiting, leaves their lists alone. */
  lemma {:induction false} OnListSame(a: seq<Task>, b: seq<Task>, xs: seq<nat>, q: nat)
    requires |a| == |b| && InRange(xs, |a|)
    requires forall p :: p in xs ==> ListOf(a[p]) == ListOf(b[p])
    ensures OnList(a, xs, q) == OnList(b, xs, q)
  {
    if xs != [] { OnListSame(a, b, xs[1..], q); }
  }

  /** Waking all empties the queue and puts its members at the end of their ready lists, in waiting order. */
  lemma {:induction false} WakeAllEffect(s: Sched, w: nat)
    requires Inv(s) && w < |s.waits|
    ensures var n := WakeAll(s, w);
            && Inv(n) && |n.tasks| == |s.tasks|
            && n.waits == s.waits[w := []]
            && (forall p :: 0 <= p < |s.tasks| ==>
                  n.tasks[p] == if p in s.waits[w] then Awake(s.tasks[p]).(queued := true) else s.tasks[p])
            && InRange(s.waits[w], |s.tasks|)
            && (forall q :: 0 <= q < LISTS ==> n.ready[q] == s.ready[q] + OnList(s.tasks, s.waits[w], q))
    decreases |s.waits[w]|
  {
    hide ListOf, Inv, WakeOne;
    QueueInRange(s, w);
    if s.waits[w] != [] {
      WakeOneEffect(s, w);
      var m, p, n := WakeOne(s, w), s.waits[w][0], WakeAll(s, w);
      WakeAllEffect(m, w);
      assert s.waits[w] == [p] + m.waits[w];
      forall q | 0 <= q < LISTS ensures n.ready[q] == s.ready[q] + OnList(s.tasks, s.waits[w], q) {
        OnListSame(s.tasks, m.tasks, m.waits[w], q);
      }
    }
  }

  lemma QueueInRange(s: Sched, w: nat)
    requires Inv(s) && w < |s.waits|
    ensures Distinct(s.waits[w]) && InRange(s.waits[w], |s.tasks|)
  {
    assert WaitOk(s, w);
    assert forall i :: 0 <= i < |s.waits[w]| ==> s.waits[w][i] in s.waits[w];
  }
}
