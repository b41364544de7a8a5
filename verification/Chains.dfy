/** Singly linked lists threaded through a table: `next[i]` is the entry after i, the table's length the end. */
module Chains {
  import opened Lists

  function At(xs: seq<nat>, i: nat, n: nat): nat { if i < |xs| then xs[i] else n }

  function Last(xs: seq<nat>, n: nat): nat { if xs == [] then n else xs[|xs| - 1] }

  /** From `head` the links run through exactly xs, in that order, and stop. */
  predicate Chain(next: seq<nat>, head: nat, xs: seq<nat>) {
    && head == At(xs, 0, |next|)
    && forall i :: 0 <= i < |xs| ==> xs[i] < |next| && next[xs[i]] == At(xs, i + 1, |next|)
  }

  /** The lists are separate and without repetition. */
  predicate Apart(lists: seq<seq<nat>>) {
    && (forall q :: 0 <= q < |lists| ==> Distinct(lists[q]))
    && (forall q, r, x :: 0 <= q < r < |lists| && x in lists[q] ==> x !in lists[r])
  }

  predicate Chained(next: seq<nat>, heads: seq<nat>, lists: seq<seq<nat>>) {
    && |heads| == |lists|
    && forall q :: 0 <= q < |lists| ==> Chain(next, heads[q], lists[q])
  }

  predicate Tailed(next: seq<nat>, tails: seq<nat>, lists: seq<seq<nat>>) {
    && |tails| == |lists|
    && forall q :: 0 <= q < |lists| ==> tails[q] == Last(lists[q], |next|)
  }

  /** Following the links can only give one list. */
  lemma {:induction false} ChainUnique(next: seq<nat>, head: nat, xs: seq<nat>, ys: seq<nat>)
    requires Chain(next, head, xs) && Chain(next, head, ys)
    ensures xs == ys
    decreases |xs|
  {
    hide Chain;
    ChainHead(next, head, xs);
    ChainHead(next, head, ys);
    if xs != [] && ys != [] {
      ChainTail(next, head, xs);
      ChainTail(next, head, ys);
      ChainUnique(next, next[head], xs[1..], ys[1..]);
      assert xs == [xs[0]] + xs[1..] && ys == [ys[0]] + ys[1..];
    }
  }

  lemma ChainHead(next: seq<nat>, head: nat, xs: seq<nat>)
    requires Chain(next, head, xs)
    ensures head == At(xs, 0, |next|) && (xs == [] <==> head == |next|)
  {
  }

  lemma ChainTail(next: seq<nat>, head: nat, xs: seq<nat>)
    requires Chain(next, head, xs) && xs != []
    ensures head < |next| && Chain(next, next[head], xs[1..])
  {
    assert xs[0] == head && next[xs[0]] == At(xs, 1, |next|);
    forall i | 0 <= i < |xs| - 1 ensures xs[1..][i] < |next| && next[xs[1..][i]] == At(xs[1..], i + 1, |next|) {
      assert xs[1..][i] == xs[i + 1];
    }
  }

  /** Links of entries outside a list do not matter to it. */
  lemma ChainFrame(next: seq<nat>, other: seq<nat>, head: nat, xs: seq<nat>)
    requires Chain(next, head, xs) && |next| == |other|
    requires forall x :: x in xs ==> x < |next| && other[x] == next[x]
    ensures Chain(other, head, xs)
  {
  }

  // ---- Appending ----

  function LinkLast(next: seq<nat>, tail: nat, p: nat): (r: seq<nat>)
    requires p < |next|
    ensures |r| == |next|
  {
    var cleared := next[p := |next|];
    if tail < |next| then cleared[tail := p] else cleared
  }

  lemma AppendChain(next: seq<nat>, head: nat, xs: seq<nat>, p: nat)
    requires Chain(next, head, xs) && Distinct(xs) && p < |next| && p !in xs
    ensures Chain(LinkLast(next, Last(xs, |next|), p), if xs == [] then p else head, xs + [p])
  {
    var n := |next|;
    var link := LinkLast(next, Last(xs, n), p);
    forall i | 0 <= i < |xs| + 1 ensures (xs + [p])[i] < n && link[(xs + [p])[i]] == At(xs + [p], i + 1, n) {
      if i < |xs| - 1 {
        assert xs[i] != xs[|xs| - 1] && xs[i] in xs;
        assert next[xs[i]] == At(xs, i + 1, n);
      } else if i == |xs| - 1 {
        assert xs[i] in xs;
      }
    }
  }

  lemma AppendChained(next: seq<nat>, heads: seq<nat>, lists: seq<seq<nat>>, q: nat, p: nat)
    requires Chained(next, heads, lists) && Apart(lists) && q < |lists| && p < |next|
    requires forall r :: 0 <= r < |lists| ==> p !in lists[r]
    ensures Chained(LinkLast(next, Last(lists[q], |next|), p),
                    if lists[q] == [] then heads[q := p] else heads, lists[q := lists[q] + [p]])
  {
    var tail := Last(lists[q], |next|);
    var link := LinkLast(next, tail, p);
    var grown := lists[q := lists[q] + [p]];
    var front := if lists[q] == [] then heads[q := p] else heads;
    forall r | 0 <= r < |lists| ensures Chain(link, front[r], grown[r]) {
      assert Chain(next, heads[r], lists[r]);
      if r == q {
        AppendChain(next, heads[q], lists[q], p);
      } else {
        assert lists[q] != [] ==> tail in lists[q] && tail !in lists[r];
        ChainInRange(next, heads[r], lists[r]);
        ChainFrame(next, link, heads[r], lists[r]);
      }
    }
  }

  lemma ChainInRange(next: seq<nat>, head: nat, xs: seq<nat>)
    requires Chain(next, head, xs)
    ensures forall x :: x in xs ==> x < |next|
  {
  }

  // ---- Taking out ----

  function Unlink(next: seq<nat>, previous: nat, x: nat): (r: seq<nat>)
    requires x < |next|
    ensures |r| == |next|
  {
    (if previous < |next| then next[previous := next[x]] else next)[x := |next|]
  }

  function Before(xs: seq<nat>, k: nat, n: nat): nat
    requires k <= |xs|
  {
    if k == 0 then n else xs[k - 1]
  }

  lemma DistinctAt(xs: seq<nat>, i: nat, j: nat)
    requires Distinct(xs) && i < |xs| && j < |xs| && i != j
    ensures xs[i] != xs[j]
  {
  }

  lemma LinkAt(next: seq<nat>, head: nat, xs: seq<nat>, i: nat)
    requires Chain(next, head, xs) && i < |xs|
    ensures xs[i] < |next| && next[xs[i]] == At(xs, i + 1, |next|)
  {
  }

  lemma RemovedLink(next: seq<nat>, head: nat, xs: seq<nat>, k: nat, i: nat)
    requires Chain(next, head, xs) && Distinct(xs) && k < |xs| && xs[k] < |next| && i < |xs| - 1
    ensures var ys := xs[..k] + xs[k + 1..];
            ys[i] < |next| && Unlink(next, Before(xs, k, |next|), xs[k])[ys[i]] == At(ys, i + 1, |next|)
  {
    hide Chain, Distinct;
    var j := if i < k then i else i + 1;
    var ys := xs[..k] + xs[k + 1..];
    assert ys[i] == xs[j];
    LinkAt(next, head, xs, j);
    LinkAt(next, head, xs, k);
    DistinctAt(xs, j, k);
    if k > 0 && j != k - 1 { DistinctAt(xs, j, k - 1); }
  }

  lemma RemoveChain(next: seq<nat>, head: nat, xs: seq<nat>, k: nat)
    requires Chain(next, head, xs) && Distinct(xs) && k < |xs|
    ensures xs[k] < |next|
    ensures Chain(Unlink(next, Before(xs, k, |next|), xs[k]), if k == 0 then next[xs[k]]
            else head, xs[..k] + xs[k + 1..])
  {
    hide Distinct, Unlink, Before;
    var n, x, ys := |next|, xs[k], xs[..k] + xs[k + 1..];
    LinkAt(next, head, xs, k);
    var link := Unlink(next, Before(xs, k, n), x);
    forall i | 0 <= i < |ys| ensures ys[i] < n && link[ys[i]] == At(ys, i + 1, n) { RemovedLink(next, head, xs, k, i); }
  }

  lemma RemoveChained(next: seq<nat>, heads: seq<nat>, lists: seq<seq<nat>>, q: nat, k: nat)
    requires Chained(next, heads, lists) && Apart(lists) && q < |lists| && k < |lists[q]|
    ensures lists[q][k] < |next|
    ensures Chained(Unlink(next, Before(lists[q], k, |next|), lists[q][k]),
                    if k == 0 then heads[q := next[lists[q][k]]] else heads,
                    lists[q := lists[q][..k] + lists[q][k + 1..]])
  {
    var xs := lists[q];
    assert Chain(next, heads[q], xs);
    var link := Unlink(next, Before(xs, k, |next|), xs[k]);
    var shrunk := lists[q := xs[..k] + xs[k + 1..]];
    var front := if k == 0 then heads[q := next[xs[k]]] else heads;
    forall r | 0 <= r < |lists| ensures Chain(link, front[r], shrunk[r]) {
      assert Chain(next, heads[r], lists[r]);
      if r == q {
        RemoveChain(next, heads[q], xs, k);
      } else {
        assert xs[k] in xs && xs[k] !in lists[r];
        assert k > 0 ==> xs[k - 1] in xs && xs[k - 1] !in lists[r];
        ChainInRange(next, heads[r], lists[r]);
        ChainFrame(next, link, heads[r], lists[r]);
      }
    }
  }

  // ---- Walking ----

  /** The entry before p on the list through xs, the table's length if p is its head. */
  method FindBefore(next: seq<nat>, head: nat, p: nat, ghost xs: seq<nat>, ghost place: nat) returns (previous: nat)
    requires Chain(next, head, xs) && Distinct(xs) && place < |xs| && xs[place] == p
    ensures previous == Before(xs, place, |next|)
  {
    hide Chain, Distinct;
    ChainHead(next, head, xs);
    previous := |next|;
    var current := head;
    ghost var k := 0;
    while current != p
      invariant k <= place && current == xs[k] && previous == Before(xs, k, |next|)
      decreases place - k
    {
      LinkAt(next, head, xs, k);
      previous := current;
      current := next[current];
      k := k + 1;
    }
    if k != place { DistinctAt(xs, k, place); }
  }

  method CountChain(next: seq<nat>, head: nat, ghost xs: seq<nat>) returns (count: nat)
    requires Chain(next, head, xs)
    ensures count == |xs|
  {
    count := 0;
    var entry := head;
    while entry != |next|
      invariant count <= |xs| && entry == At(xs, count, |next|)
      decreases |xs| - count
    {
      LinkAt(next, head, xs, count);
      entry := next[entry];
      count := count + 1;
    }
  }
}
