/** The scheduler's queues as the kernel keeps them: lists threaded through the process table. */
module RunQueues {
  import opened Bits
  import opened Lists
  import opened Scheduling
  import opened Balancing
  import opened Waiting
  import opened Timeouts
  import opened Chains

  lemma InvApart(s: Sched)
    requires Inv(s)
    ensures Apart(s.ready) && Apart(s.waits)
  {
    hide ListOf;
    forall q | 0 <= q < |s.ready| ensures Distinct(s.ready[q]) { assert ListOk(s, q); }
    forall q, r, x | 0 <= q < r < |s.ready| && x in s.ready[q] ensures x !in s.ready[r] {
      assert ListOk(s, q) && ListOk(s, r);
    }
    forall w | 0 <= w < |s.waits| ensures Distinct(s.waits[w]) { assert WaitOk(s, w); }
    forall q, r, x | 0 <= q < r < |s.waits| && x in s.waits[q] ensures x !in s.waits[r] {
      assert WaitOk(s, q) && WaitOk(s, r);
    }
  }

  lemma NotListed(s: Sched, p: nat)
    requires Inv(s) && p < |s.tasks| && !s.tasks[p].queued
    ensures forall q :: 0 <= q < LISTS ==> p !in s.ready[q]
  {
    forall q | 0 <= q < LISTS ensures p !in s.ready[q] { assert ListOk(s, q); }
  }

  lemma NotWaiting(s: Sched, p: nat)
    requires Inv(s) && p < |s.tasks| && s.tasks[p].waiting.None?
    ensures forall w :: 0 <= w < |s.waits| ==> p !in s.waits[w]
  {
    forall w | 0 <= w < |s.waits| ensures p !in s.waits[w] { assert WaitOk(s, w); }
  }

  lemma LastRemoved(xs: seq<nat>, k: nat, n: nat)
    requires Distinct(xs) && k < |xs|
    ensures Last(xs[..k] + xs[k + 1..], n) == if Last(xs, n) == xs[k] then Before(xs, k, n) else Last(xs, n)
  {
    var ys := xs[..k] + xs[k + 1..];
    if k < |xs| - 1 {
      DistinctAt(xs, k, |xs| - 1);
      assert ys[|ys| - 1] == xs[|xs| - 1];
    } else {
      assert ys == xs[..k];
    }
  }

  lemma RemoveTailed(next: seq<nat>, link: seq<nat>, tails: seq<nat>, lists: seq<seq<nat>>, q: nat, k: nat)
    requires Tailed(next, tails, lists) && |link| == |next|
    requires q < |lists| && k < |lists[q]| && Distinct(lists[q])
    ensures var xs := lists[q];
            Tailed(link, if tails[q] == xs[k] then tails[q := Before(xs, k, |next|)] else tails,
                   lists[q := xs[..k] + xs[k + 1..]])
  {
    hide Distinct, Last;
    LastRemoved(lists[q], k, |next|);
  }

  lemma IndexOf(xs: seq<nat>, p: nat) returns (k: nat)
    requires p in xs
    ensures k < |xs| && xs[k] == p
  {
    k :| k < |xs| && xs[k] == p;
  }

  class Scheduler {
    var tasks: seq<Task>
    var readyNext: seq<nat>
    var readyHeads: seq<nat>
    var readyTails: seq<nat>
    var waitNext: seq<nat>
    var waitHeads: seq<nat>
    var waitTails: seq<nat>
    ghost var ready: seq<seq<nat>>
    ghost var waits: seq<seq<nat>>

    ghost function Value(): Sched reads this { Sched(tasks, ready, waits) }

    ghost predicate ReadyLinked()
      reads this
    {
      |readyNext| == |tasks| && Chained(readyNext, readyHeads, ready) && Tailed(readyNext, readyTails, ready)
    }

    ghost predicate WaitLinked()
      reads this
    {
      |waitNext| == |tasks| && Chained(waitNext, waitHeads, waits) && Tailed(waitNext, waitTails, waits)
    }

    ghost predicate Valid() reads this { Inv(Value()) && ReadyLinked() && WaitLinked() }

    /** Empty queues over a table of processes, none of them queued or waiting. */
    constructor (table: seq<Task>, queues: nat)
      requires forall p :: 0 <= p < |table| ==> !table[p].queued && table[p].waiting.None?
      ensures Valid() && tasks == table && |waits| == queues
      ensures forall q :: 0 <= q < LISTS ==> ready[q] == []
      ensures forall w :: 0 <= w < queues ==> waits[w] == []
    {
      tasks := table;
      readyNext := seq(|table|, _ => |table|);
      waitNext := seq(|table|, _ => |table|);
      readyHeads := seq(LISTS, _ => |table|);
      readyTails := seq(LISTS, _ => |table|);
      waitHeads := seq(queues, _ => |table|);
      waitTails := seq(queues, _ => |table|);
      ready := seq(LISTS, _ => []);
      waits := seq(queues, _ => []);
    }

    method ReadyEnqueue(p: nat)
      requires Valid() && p < |tasks|
      modifies this
      ensures Valid() && Value() == Enqueue(old(Value()), p)
    {
      hide Inv, Apart, Chained, Tailed, ListOf, Chain;
      ghost var s := Value();
      EnqueueKeepsInv(s, p);
      if tasks[p].state != READY || tasks[p].queued { return; }
      var q := ListOf(tasks[p]);
      InvApart(s);
      NotListed(s, p);
      AppendChained(readyNext, readyHeads, ready, q, p);
      EnqueueTails(readyNext, readyHeads, readyTails, ready, q, p);
      readyNext := readyNext[p := |tasks|];
      tasks := tasks[p := tasks[p].(queued := true)];
      if readyTails[q] != |tasks| {
        readyNext := readyNext[readyTails[q] := p];
      } else {
        readyHeads := readyHeads[q := p];
      }
      readyTails := readyTails[q := p];
      ready := ready[q := ready[q] + [p]];
    }

    /** A flagged process is always found on its list, so the source's way out past the loop is never taken. */
    method ReadyRemove(p: nat)
      requires Valid() && p < |tasks|
      modifies this
      ensures Valid() && Value() == Remove(old(Value()), p)
    {
      hide Inv, Apart, Chained, Tailed, ListOf, Chain, Without, Before, Unlink;
      ghost var s := Value();
      RemoveKeepsInv(s, p);
      if !tasks[p].queued { return; }
      var q := ListOf(tasks[p]);
      ghost var k := ReadyPlace(s, readyNext, readyHeads, readyTails, p);
      var previous := FindBefore(readyNext, readyHeads[q], p, ready[q], k);
      RemoveChained(readyNext, readyHeads, ready, q, k);
      RemoveTailed(readyNext, Unlink(readyNext, previous, p), readyTails, ready, q, k);
      PreviousRange(readyNext, readyHeads[q], ready[q], k);
      var after := readyNext[p];
      if previous != |tasks| {
        readyNext := readyNext[previous := after];
      } else {
        readyHeads := readyHeads[q := after];
      }
      if readyTails[q] == p {
        readyTails := readyTails[q := previous];
      }
      readyNext := readyNext[p := |tasks|];
      tasks := tasks[p := tasks[p].(queued := false)];
      ready := ready[q := ready[q][..k] + ready[q][k + 1..]];
      UnlinkSteps(old(readyNext), previous, p, after, readyNext);
    }

    method QueueLength(cpu: nat) returns (count: nat)
      requires Valid() && cpu < CPUS
      ensures count == |Line(Value(), cpu, 0)|
    {
      hide Inv, Chain, Tailed;
      count := 0;
      for priority := 0 to PRIORITIES
        invariant count + |Line(Value(), cpu, priority)| == |Line(Value(), cpu, 0)|
      {
        ghost var xs := Level(Value(), cpu, priority);
        var entry := readyHeads[cpu * PRIORITIES + priority];
        assert Chain(readyNext, entry, xs);
        var length := CountChain(readyNext, entry, xs);
        count := count + length;
      }
    }

    /** The first process of the best list, the table's length if all lists are empty. */
    method ReadyPeek(cpu: nat) returns (p: nat)
      requires Valid() && cpu < CPUS
      ensures p == match Peek(Value(), cpu, 0) case None => |tasks| case Some(y) => y
      ensures p <= |tasks|
    {
      hide Inv, Chain, Tailed;
      for priority := 0 to PRIORITIES
        invariant Peek(Value(), cpu, 0) == Peek(Value(), cpu, priority)
      {
        ghost var q := cpu * PRIORITIES + priority;
        assert Chain(readyNext, readyHeads[q], ready[q]);
        ChainHead(readyNext, readyHeads[q], ready[q]);
        if readyHeads[cpu * PRIORITIES + priority] != |tasks| {
          return readyHeads[cpu * PRIORITIES + priority];
        }
      }
      p := |tasks|;
    }

    method ReadyDequeue(cpu: nat) returns (p: nat)
      requires Valid() && cpu < CPUS
      modifies this
      ensures Valid() && Value() == Dequeue(old(Value()), cpu).0
      ensures p == match Dequeue(old(Value()), cpu).1 case None => |tasks| case Some(y) => y
    {
      hide Inv, Chained, Tailed, Peek, Without;
      p := ReadyPeek(cpu);
      if p != |tasks| { ReadyRemove(p); }
    }

    /** `total` is the number of processors online, `local` the one that runs this. */
    method BalanceRunqueues(local: nat, total: nat)
      requires Valid() && local < CPUS
      modifies this
      ensures Valid() && Value() == Balance(old(Value()), local, total)
    {
      hide Inv, Chained, Tailed, Peek, Without, Line, ListOf, Enqueue, Remove;
      if total < 2 { return; }
      var load := QueueLength(local);
      if load > 0 { return; }
      ghost var s := Value();
      var limit := Limit(total);
      for source := 0 to limit
        invariant Value() == s && Valid()
        invariant FirstBusy(s, local, limit, 0) == FirstBusy(s, local, limit, source)
      {
        var length := QueueLength(source);
        if source != local && length >= 2 {
          PeekIff(s, source, 0);
          var p := ReadyPeek(source);
          ReadyRemove(p);
          NoLongerQueued(s, p);
          tasks := tasks[p := tasks[p].(cpu := local)];
          assert Value() == Reassign(Remove(s, p), p, local);
          ReadyEnqueue(p);
          return;
        }
      }
    }

    method SleepUntil(p: nat, w: nat, deadline: int)
      requires Valid() && p < |tasks| && w < |waits|
      requires tasks[p].state != ZOMBIE ==> !tasks[p].queued && tasks[p].waiting.None?
      modifies this
      ensures Valid() && Value() == Sleep(old(Value()), p, w, deadline)
    {
      hide Inv, Apart, Chained, Tailed, Chain;
      ghost var s := Value();
      if tasks[p].state == ZOMBIE { return; }
      SleepKeepsInvIff(s, p, w, deadline);
      InvApart(s);
      NotWaiting(s, p);
      AppendChained(waitNext, waitHeads, waits, w, p);
      EnqueueTails(waitNext, waitHeads, waitTails, waits, w, p);
      tasks := tasks[p := Asleep(tasks[p], w, deadline)];
      waitNext := waitNext[p := |tasks|];
      if waitTails[w] != |tasks| {
        waitNext := waitNext[waitTails[w] := p];
      } else {
        waitHeads := waitHeads[w := p];
      }
      waitTails := waitTails[w := p];
      waits := waits[w := waits[w] + [p]];
    }

    method WakeOneTask(w: nat)
      requires Valid() && w < |waits|
      modifies this
      ensures Valid() && Value() == WakeOne(old(Value()), w)
    {
      hide Inv, Apart, Chained, Tailed, Chain, ListOf, Without, Enqueue;
      ghost var s := Value();
      QueueHead(s, waitNext, waitHeads, waitTails, w);
      if waitHeads[w] == |tasks| { return; }
      var p := waitHeads[w];
      var after := waitNext[p];
      ReleaseKeepsInv(s, p);
      RemoveChained(waitNext, waitHeads, waits, w, 0);
      RemoveTailed(waitNext, Unlink(waitNext, |waitNext|, p), waitTails, waits, w, 0);
      SecondOrNone(waitNext, p, waits[w]);
      waitHeads := waitHeads[w := after];
      if waitHeads[w] == |tasks| {
        waitTails := waitTails[w := |tasks|];
      }
      waitNext := waitNext[p := |tasks|];
      tasks := tasks[p := Awake(tasks[p])];
      waits := waits[w := waits[w][..0] + waits[w][1..]];
      assert Value() == Release(s, p);
      ReadyEnqueue(p);
    }

    method WakeAllTasks(w: nat)
      requires Valid() && w < |waits|
      modifies this
      ensures Valid() && Value() == WakeAll(old(Value()), w)
    {
      hide Inv, Chained, Tailed, ListOf, WakeOne;
      ghost var s := Value();
      QueueHead(s, waitNext, waitHeads, waitTails, w);
      while waitHeads[w] != |tasks|
        invariant Valid() && w < |waits| && |waitHeads| == |waits| && WakeAll(Value(), w) == WakeAll(s, w)
        invariant waitHeads[w] == |tasks| <==> waits[w] == []
        decreases |waits[w]|
      {
        WakeOneEffect(Value(), w);
        WakeOneTask(w);
        QueueHead(Value(), waitNext, waitHeads, waitTails, w);
      }
    }

    /** Takes a waiting process out of the middle of its queue and makes it ready. */
    method WakeTask(p: nat)
      requires Valid() && p < |tasks| && tasks[p].waiting.Some?
      modifies this
      ensures Valid() && Value() == Wake(old(Value()), p)
    {
      hide Inv, Apart, Chained, Tailed, Chain, ListOf, Without, Enqueue, Before, Unlink;
      ghost var s := Value();
      ghost var k := WaitPlace(s, waitNext, waitHeads, waitTails, p);
      var w := tasks[p].waiting.value;
      ReleaseKeepsInv(s, p);
      var previous := FindBefore(waitNext, waitHeads[w], p, waits[w], k);
      RemoveChained(waitNext, waitHeads, waits, w, k);
      RemoveTailed(waitNext, Unlink(waitNext, previous, p), waitTails, waits, w, k);
      PreviousRange(waitNext, waitHeads[w], waits[w], k);
      EmptyTail(waitNext, waitHeads[w], waits[w], k);
      var after := waitNext[p];
      if previous != |tasks| {
        waitNext := waitNext[previous := after];
      } else {
        waitHeads := waitHeads[w := after];
      }
      if waitTails[w] == p {
        waitTails := waitTails[w := previous];
      }
      if waitHeads[w] == |tasks| {
        waitTails := waitTails[w := |tasks|];
      }
      waitNext := waitNext[p := |tasks|];
      tasks := tasks[p := Awake(tasks[p])];
      waits := waits[w := waits[w][..k] + waits[w][k + 1..]];
      UnlinkSteps(old(waitNext), previous, p, after, waitNext);
      assert waitTails == if old(waitTails)[w] == p then old(waitTails)[w := previous] else old(waitTails);
      assert Value() == Release(s, p);
      ReadyEnqueue(p);
    }

    method PollTimeouts(now: int)
      requires Valid()
      modifies this
      ensures Valid() && Value() == Poll(old(Value()), now)
    {
      hide Inv, Chained, Tailed, ListOf, Wake;
      ghost var s := Value();
      var count := |tasks|;
      for index := 0 to count
        invariant Valid() && |tasks| == count && PollFrom(Value(), now, index) == PollFrom(s, now, 0)
      {
        if Due(tasks[index], now) {
          WakeEffect(Value(), index);
          WakeTask(index);
        }
      }
    }
  }

  /** Where a waiting process stands on its queue. */
  lemma WaitPlace(s: Sched, next: seq<nat>, heads: seq<nat>, tails: seq<nat>, p: nat) returns (k: nat)
    requires Inv(s) && p < |s.tasks| && s.tasks[p].waiting.Some?
    requires Chained(next, heads, s.waits) && Tailed(next, tails, s.waits)
    ensures s.tasks[p].waiting.value < |s.waits|
    ensures var w := s.tasks[p].waiting.value; var xs := s.waits[w];
            && |heads| == |tails| == |s.waits| && Apart(s.waits) && Distinct(xs) && Chain(next, heads[w], xs)
            && k < |xs| && xs[k] == p && p < |next|
            && Without(xs, p) == xs[..k] + xs[k + 1..]
            && tails[w] == Last(xs, |next|)
  {
    assert TaskOk(s, p);
    var xs := s.waits[s.tasks[p].waiting.value];
    InvApart(s);
    k := IndexOf(xs, p);
    WithoutAt(xs, k);
    ChainInRange(next, heads[s.tasks[p].waiting.value], xs);
  }

  /** A queue that is left without a head is left without a tail. */
  lemma EmptyTail(next: seq<nat>, head: nat, xs: seq<nat>, k: nat)
    requires Chain(next, head, xs) && Distinct(xs) && k < |xs|
    ensures xs[k] < |next| && head < |next|
    ensures k == 0 && next[xs[k]] == |next| ==> Last(xs, |next|) == xs[k]
    ensures k == 0 ==> Before(xs, k, |next|) == |next|
  {
    LinkAt(next, head, xs, k);
    LinkAt(next, head, xs, 0);
    if |xs| > 1 { LinkAt(next, head, xs, 1); }
  }

  /** The head of a wait queue, its place, and what taking it out leaves. */
  lemma QueueHead(s: Sched, next: seq<nat>, heads: seq<nat>, tails: seq<nat>, w: nat)
    requires Inv(s) && w < |s.waits| && |next| == |s.tasks|
    requires Chained(next, heads, s.waits) && Tailed(next, tails, s.waits)
    ensures |heads| == |tails| == |s.waits| && Apart(s.waits) && Distinct(s.waits[w])
    ensures Chain(next, heads[w], s.waits[w])
    ensures heads[w] == |next| <==> s.waits[w] == []
    ensures s.waits[w] != [] ==>
              && heads[w] == s.waits[w][0] < |s.tasks| && s.tasks[heads[w]].waiting == Some(w)
              && Without(s.waits[w], heads[w]) == s.waits[w][..0] + s.waits[w][1..]
              && tails[w] == Last(s.waits[w], |next|)
  {
    InvApart(s);
    assert WaitOk(s, w);
    ChainHead(next, heads[w], s.waits[w]);
    if s.waits[w] != [] {
      assert s.waits[w][0] in s.waits[w];
      WithoutAt(s.waits[w], 0);
    }
  }

  /** The link of the head ends the list exactly when the head is also the tail. */
  lemma SecondOrNone(next: seq<nat>, head: nat, xs: seq<nat>)
    requires Chain(next, head, xs) && Distinct(xs) && xs != []
    ensures head < |next| && (next[head] == |next| <==> Last(xs, |next|) == head)
    ensures Unlink(next, |next|, head) == next[head := |next|]
  {
    LinkAt(next, head, xs, 0);
    if |xs| > 1 {
      LinkAt(next, head, xs, 1);
      DistinctAt(xs, 0, |xs| - 1);
    }
  }

  /** Where a flagged process stands on its list. */
  lemma ReadyPlace(s: Sched, next: seq<nat>, heads: seq<nat>, tails: seq<nat>, p: nat) returns (k: nat)
    requires Inv(s) && p < |s.tasks| && s.tasks[p].queued && Chained(next, heads, s.ready)
             && Tailed(next, tails, s.ready)
    ensures var q := ListOf(s.tasks[p]); var xs := s.ready[q];
            && |heads| == |tails| == LISTS && Apart(s.ready) && Distinct(xs) && Chain(next, heads[q], xs)
            && k < |xs| && xs[k] == p && p in xs && p < |next|
            && Without(xs, p) == xs[..k] + xs[k + 1..]
  {
    hide ListOf;
    var xs := s.ready[ListOf(s.tasks[p])];
    assert TaskOk(s, p);
    InvApart(s);
    k := IndexOf(xs, p);
    WithoutAt(xs, k);
    ChainInRange(next, heads[ListOf(s.tasks[p])], xs);
  }

  lemma PreviousRange(next: seq<nat>, head: nat, xs: seq<nat>, k: nat)
    requires Chain(next, head, xs) && Distinct(xs) && k < |xs|
    ensures Before(xs, k, |next|) <= |next| && (Before(xs, k, |next|) == |next| <==> k == 0)
    ensures Before(xs, k, |next|) != xs[k]
  {
    LinkAt(next, head, xs, k);
    if k > 0 {
      LinkAt(next, head, xs, k - 1);
      DistinctAt(xs, k - 1, k);
    }
  }

  lemma UnlinkSteps(next: seq<nat>, previous: nat, p: nat, after: nat, link: seq<nat>)
    requires p < |next| && previous <= |next| && after == next[p]
    requires link == (if previous != |next| then next[previous := after] else next)[p := |next|]
    ensures link == Unlink(next, previous, p)
  {
  }

  lemma EnqueueTails(next: seq<nat>, heads: seq<nat>, tails: seq<nat>, lists: seq<seq<nat>>, q: nat, p: nat)
    requires Tailed(next, tails, lists) && Chained(next, heads, lists) && q < |lists| && p < |next|
    ensures |tails| == |heads| == |lists|
    ensures tails[q] == Last(lists[q], |next|) && (tails[q] == |next| <==> lists[q] == []) && tails[q] <= |next|
    ensures Tailed(LinkLast(next, tails[q], p), tails[q := p], lists[q := lists[q] + [p]])
  {
    assert Chain(next, heads[q], lists[q]);
  }
}
