/** The timeout pass over the process table. */
module Timeouts {
  import opened Bits
  import opened Lists
  import opened Scheduling
  import opened Waiting

  /** The deadline is at or before `now` on the 32-bit clock, half a turn being the limit. */
  predicate Passed(deadline: int, now: int) { (now - deadline) % TWO_32 < 0x8000_0000 }

  predicate Due(t: Task, now: int) {
    t.state == WAITING && t.waiting.Some? && t.active && Passed(t.deadline, now)
  }

  function PollFrom(s: Sched, now: int, i: nat): Sched
    requires Inv(s) && i <= |s.tasks|
    decreases |s.tasks| - i
  {
    if i == |s.tasks| then s
    else if Due(s.tasks[i], now) then
      WakeEffect(s, i);
      PollFrom(Wake(s, i), now, i + 1)
    else PollFrom(s, now, i + 1)
  }

  function Poll(s: Sched, now: int): Sched requires Inv(s) { PollFrom(s, now, 0) }

  // ---- Exactly those that are due ----

  /** The members of a queue that are not woken when the pass goes on from entry i. */
  function Stay(tasks: seq<Task>, now: int, i: nat, xs: seq<nat>): seq<nat>
    requires InRange(xs, |tasks|)
  {
    if xs == [] then []
    else
      var x := xs[|xs| - 1];
      var r := Stay(tasks, now, i, xs[..|xs| - 1]);
      if x >= i && Due(tasks[x], now) then r else r + [x]
  }

  /** The due processes from entry i on whose ready list is q, in table order. */
  function DueOn(tasks: seq<Task>, now: int, i: nat, q: nat): seq<nat>
    requires i <= |tasks|
    decreases |tasks| - i
  {
    if i == |tasks| then []
    else (if Due(tasks[i], now) && ListOf(tasks[i]) == q then [i] else []) + DueOn(tasks, now, i + 1, q)
  }

  lemma {:induction false} WithoutInRange(xs: seq<nat>, p: nat, n: nat)
    requires InRange(xs, n)
    ensures InRange(Without(xs, p), n)
  {
    if xs != [] { WithoutInRange(xs[..|xs| - 1], p, n); }
  }

  lemma {:induction false} StayAll(tasks: seq<Task>, now: int, xs: seq<nat>)
    requires InRange(xs, |tasks|)
    ensures Stay(tasks, now, |tasks|, xs) == xs
  {
    if xs != [] {
      StayAll(tasks, now, xs[..|xs| - 1]);
      assert xs == xs[..|xs| - 1] + [xs[|xs| - 1]];
    }
  }

  /** An entry that is not due may be passed over. */
  lemma {:induction false} StaySkip(tasks: seq<Task>, now: int, i: nat, xs: seq<nat>)
    requires InRange(xs, |tasks|) && i < |tasks| && !Due(tasks[i], now)
    ensures Stay(tasks, now, i, xs) == Stay(tasks, now, i + 1, xs)
  {
    if xs != [] { StaySkip(tasks, now, i, xs[..|xs| - 1]); }
  }

  /** Waking entry i takes it out of the queue before the pass goes on. */
  lemma {:induction false} StayWoken(a: seq<Task>, b: seq<Task>, now: int, i: nat, xs: seq<nat>)
    requires |a| == |b| && InRange(xs, |a|) && i < |a| && Due(a[i], now)
    requires forall p :: 0 <= p < |a| && p != i ==> a[p] == b[p]
    ensures InRange(Without(xs, i), |b|)
    ensures Stay(a, now, i, xs) == Stay(b, now, i + 1, Without(xs, i))
  {
    hide Due;
    WithoutInRange(xs, i, |b|);
    if xs != [] {
      var rest, x := xs[..|xs| - 1], xs[|xs| - 1];
      StayWoken(a, b, now, i, rest);
      if x != i {
        var ys := Without(rest, i);
        assert Without(xs, i) == ys + [x];
        assert (ys + [x])[..|ys|] == ys;
      }
    }
  }

  lemma {:induction false} DueOnLater(a: seq<Task>, b: seq<Task>, now: int, i: nat, q: nat)
    requires |a| == |b| && i <= |a| && forall p :: i <= p < |a| ==> a[p] == b[p]
    ensures DueOn(a, now, i, q) == DueOn(b, now, i, q)
    decreases |a| - i
  {
    if i < |a| { DueOnLater(a, b, now, i + 1, q); }
  }

  /** What the pass from entry i on makes of the state. */
  predicate PolledFrom(s: Sched, n: Sched, now: int, i: nat)
    requires Inv(s) && Inv(n) && i <= |s.tasks|
  {
    && |n.tasks| == |s.tasks| && |n.waits| == |s.waits|
    && (forall p :: 0 <= p < |s.tasks| ==>
          n.tasks[p] == if p >= i && Due(s.tasks[p], now) then Awake(s.tasks[p]).(queued := true) else s.tasks[p])
    && (forall w :: 0 <= w < |s.waits| ==>
          InRange(s.waits[w], |s.tasks|) && n.waits[w] == Stay(s.tasks, now, i, s.waits[w]))
    && (forall q :: 0 <= q < LISTS ==> n.ready[q] == s.ready[q] + DueOn(s.tasks, now, i, q))
  }

  lemma AfterWake(s: Sched, m: Sched, n: Sched, now: int, i: nat)
    requires Inv(s) && i < |s.tasks| && Due(s.tasks[i], now)
    requires m == Wake(s, i) && Inv(m) && Inv(n) && |m.tasks| == |s.tasks| && PolledFrom(m, n, now, i + 1)
    ensures PolledFrom(s, n, now, i)
  {
    hide Wake, Inv, ListOf, Stay, Passed;
    WakeEffect(s, i);
    forall w | 0 <= w < |s.waits|
      ensures InRange(s.waits[w], |s.tasks|) && n.waits[w] == Stay(s.tasks, now, i, s.waits[w])
    {
      QueueInRange(s, w);
      StayWoken(s.tasks, m.tasks, now, i, s.waits[w]);
      if w != s.tasks[i].waiting.value {
        NotWaitingOn(s, i, w);
        WithoutOther(s.waits[w], i);
      }
    }
    forall q | 0 <= q < LISTS ensures n.ready[q] == s.ready[q] + DueOn(s.tasks, now, i, q) {
      DueOnLater(s.tasks, m.tasks, now, i + 1, q);
    }
  }

  lemma NotWaitingOn(s: Sched, p: nat, w: nat)
    requires Inv(s) && p < |s.tasks| && w < |s.waits| && s.tasks[p].waiting != Some(w)
    ensures p !in s.waits[w]
  {
    assert WaitOk(s, w);
  }

  lemma {:induction false} PollFromEffect(s: Sched, now: int, i: nat)
    requires Inv(s) && i <= |s.tasks|
    ensures Inv(PollFrom(s, now, i)) && PolledFrom(s, PollFrom(s, now, i), now, i)
    decreases |s.tasks| - i
  {
    hide Wake, Inv, ListOf, Stay, Due;
    forall w | 0 <= w < |s.waits| ensures InRange(s.waits[w], |s.tasks|) { QueueInRange(s, w); }
    if i == |s.tasks| {
      forall w | 0 <= w < |s.waits| ensures s.waits[w] == Stay(s.tasks, now, i, s.waits[w]) {
        StayAll(s.tasks, now, s.waits[w]);
      }
    } else if Due(s.tasks[i], now) {
      DueWaits(s.tasks[i], now);
      WakeEffect(s, i);
      PollFromEffect(Wake(s, i), now, i + 1);
      AfterWake(s, Wake(s, i), PollFrom(s, now, i), now, i);
    } else {
      PollFromEffect(s, now, i + 1);
      forall w | 0 <= w < |s.waits| ensures Stay(s.tasks, now, i, s.waits[w]) == Stay(s.tasks, now, i + 1, s.waits[w]) {
        StaySkip(s.tasks, now, i, s.waits[w]);
      }
    }
  }

  lemma DueWaits(t: Task, now: int)
    requires Due(t, now)
    ensures t.waiting.Some?
  {
  }

  /** A pass wakes exactly the processes that are due; those left in each queue keep their order. */
  lemma PollEffect(s: Sched, now: int)
    requires Inv(s)
    ensures Inv(Poll(s, now)) && PolledFrom(s, Poll(s, now), now, 0)
  {
    PollFromEffect(s, now, 0);
  }

  /** A sleeper is woken by a pass exactly when its deadline is not zero and has passed: a deadline that
      falls on tick zero of the clock is taken for no deadline at all. */
  lemma SleeperTimesOutIff(s: Sched, p: nat, w: nat, deadline: int, now: int)
    requires Inv(s) && p < |s.tasks| && w < |s.waits| && s.tasks[p].state == RUNNING
    ensures Inv(Sleep(s, p, w, deadline))
    ensures var n := Poll(Sleep(s, p, w, deadline), now);
            && |n.tasks| == |s.tasks|
            && n.tasks[p].state == if deadline != 0 && Passed(deadline, now) then READY else WAITING
  {
    assert TaskOk(s, p);
    SleepKeepsInvIff(s, p, w, deadline);
    PollEffect(Sleep(s, p, w, deadline), now);
  }

  /** One running process and one empty wait queue. */
  function Alone(): Sched { Sched([Task(RUNNING, false, 0, 4, None, 0, false)], seq(LISTS, _ => []), [[]]) }

  lemma AloneInv()
    ensures Inv(Alone())
  {
    hide ListOf;
    var s := Alone();
    forall q | 0 <= q < LISTS ensures ListOk(s, q) {}
    forall w | 0 <= w < |s.waits| ensures WaitOk(s, w) {}
    forall p | 0 <= p < |s.tasks| ensures TaskOk(s, p) {}
  }

  /** A deadline that falls on tick zero passes unnoticed, however late the pass. */
  lemma TickZeroNeverFires(now: int)
    ensures Inv(Alone()) && Inv(Sleep(Alone(), 0, 0, 0))
    ensures var n := Poll(Sleep(Alone(), 0, 0, 0), now); |n.tasks| == 1 && n.tasks[0].state == WAITING
  {
    AloneInv();
    SleeperTimesOutIff(Alone(), 0, 0, 0, now);
  }

  /** A process that goes to sleep while it sleeps is in its queue twice. */
  lemma SleepingTwice()
    ensures Inv(Sleep(Alone(), 0, 0, 5)) && !Inv(Sleep(Sleep(Alone(), 0, 0, 5), 0, 0, 5))
  {
    AloneInv();
    SleepKeepsInvIff(Alone(), 0, 0, 5);
    SleepKeepsInvIff(Sleep(Alone(), 0, 0, 5), 0, 0, 5);
  }
}
