/** The blocks in use determine the whole heap: where free memory lies is no matter of history. */
module HeapLive {
  import opened HeapLayout

  /** The same payloads are in use, with the same sizes. */
  ghost predicate SameLive(l: Layout, m: Layout) {
    forall p: nat :: (IsLive(l, p) <==> IsLive(m, p)) && (IsLive(l, p) && IsLive(m, p) ==> SizeAt(l, p) == SizeAt(m, p))
  }

  lemma {:induction false} OffsetsDiffer(l: Layout, i: nat, j: nat)
    requires i <= |l| && j <= |l| && Offset(l, i) == Offset(l, j)
    ensures i == j
  {
    if i < j {
      OffsetGrows(l, i, j);
    } else if j < i {
      OffsetGrows(l, j, i);
    }
  }

  /** A block in use is in use in the other layout, at the same place. */
  lemma UsedThere(l: Layout, m: Layout, i: nat) returns (j: nat)
    requires SameLive(l, m) && i < |l| && l[i].used
    ensures j < |m| && m[j] == l[i] && Offset(m, j) == Offset(l, i)
  {
    hide Offset;
    FoundBlock(l, i);
    var p := Payload(l, i);
    assert IsLive(l, p);
    j := BlockAt(m, p, 0);
  }

  lemma FreeNotLonger(l: Layout, m: Layout, i: nat)
    requires Ok(l) && Ok(m) && SameLive(l, m) && i < |l| && i < |m| && Offset(l, i) == Offset(m, i)
    requires !l[i].used
    ensures m[i].size <= l[i].size
  {
    hide Offset, SameLive;
    OffsetStep(l, i);
    OffsetStep(m, i);
    OffsetGrows(m, i, |m|);
    if m[i].size > l[i].size {
      OffsetGrows(l, i, |l|);
      UsedNeighbours(l, i);
      var j := UsedThere(l, m, i + 1);
      if j < i {
        OffsetGrows(m, j, i);
      } else if j > i {
        OffsetStep(m, i);
        if j > i + 1 {
          OffsetGrows(m, i + 1, j);
        }
      }
      assert false;
    }
  }

  lemma NextBlockSame(l: Layout, m: Layout, i: nat)
    requires Ok(l) && Ok(m) && SameLive(l, m) && SameLive(m, l) && i < |l| && i <= |m| && l[..i] == m[..i]
    ensures i < |m| && l[i] == m[i]
  {
    hide Offset, SameLive;
    OffsetPrefix(l, m, i);
    OffsetGrows(l, i, |l|);
    if l[i].used {
      var j := UsedThere(l, m, i);
      OffsetsDiffer(m, i, j);
    } else {
      if m[i].used {
        var j := UsedThere(m, l, i);
        OffsetsDiffer(l, i, j);
      }
      FreeNotLonger(l, m, i);
      FreeNotLonger(m, l, i);
    }
  }

  lemma {:induction false} PrefixSame(l: Layout, m: Layout, i: nat)
    requires Ok(l) && Ok(m) && SameLive(l, m) && SameLive(m, l) && i <= |l|
    ensures i <= |m| && l[..i] == m[..i]
  {
    hide Ok, SameLive;
    if i > 0 {
      PrefixSame(l, m, i - 1);
      NextBlockSame(l, m, i - 1);
      assert l[..i] == l[..i - 1] + [l[i - 1]] && m[..i] == m[..i - 1] + [m[i - 1]];
    }
  }

  /** Two sound heaps with the same blocks in use are the same heap. */
  lemma LiveBlocksDetermine(l: Layout, m: Layout)
    requires Ok(l) && Ok(m) && SameLive(l, m)
    ensures l == m
  {
    assert SameLive(m, l);
    PrefixSame(l, m, |l|);
    PrefixSame(m, l, |m|);
    assert l == l[..|l|] && m == m[..|m|];
  }

  // ---- What the operations do to the blocks in use ----

  /** An allocation adds one block in use. */
  lemma AllocateAddsOne(l: Layout, size: nat, p: nat)
    requires Ok(l) && Given(l, size) != 0
    ensures IsLive(Allocate(l, size).0, p) <==> IsLive(l, p) || p == Given(l, size)
    ensures IsLive(l, p) ==> SizeAt(Allocate(l, size).0, p) == SizeAt(l, p)
  {
    hide Offset, Round, Ok;
    GivenIsNew(l, size);
    if IsLive(l, p) {
      AllocateKeepsLive(l, size, p);
    }
    var (t, i) := Allocate(l, size);
    if IsLive(t, p) && p != Given(l, size) {
      var k := BlockAt(t, p, 0);
      var j := TakenFrom(l, i, Round(size), k);
      FoundBlock(l, j);
    }
  }

  /** A block in use after an allocation, other than the one given out, was in use before. */
  lemma TakenFrom(l: Layout, i: nat, size: nat, k: nat) returns (j: nat)
    requires i < |l| && Fits(l[i], size) && k < |Take(l, i, size)| && Take(l, i, size)[k].used && k != i
    ensures j < |l| && l[j].used && Payload(l, j) == Payload(Take(l, i, size), k)
  {
    hide Offset;
    var s := Split(l, i, size);
    j := if k < i || s == l then k else k - 1;
    if s != l {
      SplitOffsets(l, i, size, s);
    }
    OffsetMark(s, i, true, k);
  }

  /** Freeing takes that one block out of use. */
  lemma FreedDropsOne(l: Layout, q: nat, p: nat)
    requires Ok(l)
    ensures IsLive(Freed(l, q), p) <==> IsLive(l, p) && p != q
    ensures IsLive(Freed(l, q), p) ==> SizeAt(Freed(l, q), p) == SizeAt(l, p)
  {
    hide Offset, Ok, Release;
    if IsLive(l, p) && p != q {
      FreedKeepsLive(l, q, p);
    }
    var i := BlockAt(l, q, 0);
    if i < |l| && IsLive(Freed(l, q), p) {
      var k := BlockAt(Release(l, i), p, 0);
      var j := ReleasedFrom(l, i, k);
      FoundBlock(l, j);
    }
  }

  lemma MergedFrom(l: Layout, i: nat, k: nat) returns (j: nat)
    requires i < |l| && !l[i].used && k < |MergeNext(l, i)| && MergeNext(l, i)[k].used
    ensures j < |l| && l[j].used && Payload(l, j) == Payload(MergeNext(l, i), k)
  {
    hide Offset;
    var m := MergeNext(l, i);
    j := if k < i || m == l then k else k + 1;
    if m != l {
      MergeOffsets(l, i, m);
    }
  }

  lemma ReleasedFrom(l: Layout, i: nat, k: nat) returns (j: nat)
    requires i < |l| && k < |Release(l, i)| && Release(l, i)[k].used
    ensures j < |l| && l[j].used && j != i && Payload(l, j) == Payload(Release(l, i), k)
  {
    hide Offset;
    var a := l[i := l[i].(used := false)];
    var b := MergeNext(a, i);
    var k1 := k;
    if i > 0 && !b[i - 1].used {
      k1 := MergedFrom(b, i - 1, k);
    }
    j := MergedFrom(a, i, k1);
    OffsetMark(l, i, false, j);
  }
}
