/** The kernel heap as a sequence of blocks: first fit with splitting, and merging on free.

    A block is a 32-byte header and its payload; the blocks follow each other without gaps. */
module HeapLayout {
  import opened Bits

  const HEADER: nat := 32
  const MIN_BLOCK: nat := 32
  const HEAP_START: nat := 0x600000
  const HEAP_SIZE: nat := 0x1000000

  datatype Cell = Cell(size: nat, used: bool)
  type Layout = seq<Cell>

  /** Bytes taken by the first i blocks. */
  function Offset(l: Layout, i: nat): nat
    requires i <= |l|
  {
    if i == 0 then 0 else Offset(l, i - 1) + HEADER + l[i - 1].size
  }

  function Addr(l: Layout, i: nat): nat
    requires i <= |l|
  {
    HEAP_START + Offset(l, i)
  }

  function Payload(l: Layout, i: nat): nat
    requires i < |l|
  {
    Addr(l, i) + HEADER
  }

  /** The blocks fill the heap exactly, sizes are multiples of 8, and no two neighbours are free. */
  predicate Ok(l: Layout) {
    && l != [] && Offset(l, |l|) == HEAP_SIZE
    && (forall i :: 0 <= i < |l| ==> l[i].size % 8 == 0)
    && (forall i :: 0 <= i < |l| - 1 ==> l[i].used || l[i + 1].used)
  }

  const INITIAL: Layout := [Cell(HEAP_SIZE - HEADER, false)]

  // ---- Offsets of spliced layouts ----

  lemma {:induction false} OffsetPrefix(a: Layout, b: Layout, i: nat)
    requires i <= |a| && i <= |b| && a[..i] == b[..i]
    ensures Offset(a, i) == Offset(b, i)
  {
    if i > 0 {
      assert a[..i - 1] == a[..i][..i - 1] && b[..i - 1] == b[..i][..i - 1];
      assert a[i - 1] == a[..i][i - 1] && b[i - 1] == b[..i][i - 1];
      OffsetPrefix(a, b, i - 1);
    }
  }

  /** Blocks after a replaced stretch stay where they are if the stretch keeps its length. */
  lemma {:induction false} OffsetSuffix(a: Layout, b: Layout, i: nat, j: nat, k: nat)
    requires i + k <= |a| && j + k <= |b| && a[i..i + k] == b[j..j + k] && Offset(a, i) == Offset(b, j)
    ensures Offset(a, i + k) == Offset(b, j + k)
    decreases k
  {
    if k > 0 {
      assert a[i..i + k - 1] == a[i..i + k][..k - 1] && b[j..j + k - 1] == b[j..j + k][..k - 1];
      assert a[i + k - 1] == a[i..i + k][k - 1] && b[j + k - 1] == b[j..j + k][k - 1];
      OffsetSuffix(a, b, i, j, k - 1);
    }
  }

  /** Layout l has two blocks, i and i + 1, where m has one as long as both together. */
  predicate CutAt(l: Layout, m: Layout, i: nat) {
    && i < |m| && |l| == |m| + 1 && l[..i] == m[..i] && l[i + 2..] == m[i + 1..]
    && m[i].size == l[i].size + HEADER + l[i + 1].size
  }

  lemma OffsetStep(l: Layout, i: nat)
    requires i < |l|
    ensures Offset(l, i + 1) == Offset(l, i) + HEADER + l[i].size
  {
  }

  /** All other blocks are at the same place in both. */
  lemma CutOffsets(l: Layout, m: Layout, i: nat, k: nat)
    requires CutAt(l, m, i) && k <= |m|
    ensures k <= i ==> Offset(l, k) == Offset(m, k)
    ensures k > i ==> Offset(l, k + 1) == Offset(m, k)
  {
    hide Offset;
    if k <= i {
      assert l[..k] == l[..i][..k] && m[..k] == m[..i][..k];
      OffsetPrefix(l, m, k);
    } else {
      OffsetPrefix(l, m, i);
      OffsetStep(l, i);
      OffsetStep(l, i + 1);
      OffsetStep(m, i);
      var n := k - (i + 1);
      assert l[i + 2..i + 2 + n] == l[i + 2..][..n] && m[i + 1..i + 1 + n] == m[i + 1..][..n];
      OffsetSuffix(l, m, i + 2, i + 1, n);
    }
  }

  // ---- Blocks lie apart ----

  lemma {:induction false} OffsetGrows(l: Layout, i: nat, j: nat)
    requires i < j <= |l|
    ensures Offset(l, i) + HEADER + l[i].size <= Offset(l, j)
    decreases j
  {
    if i < j - 1 {
      OffsetGrows(l, i, j - 1);
    }
  }

  lemma {:induction false} OffsetAligned(l: Layout, i: nat)
    requires i <= |l| && forall k :: 0 <= k < |l| ==> l[k].size % 8 == 0
    ensures Offset(l, i) % 8 == 0
  {
    if i > 0 {
      OffsetAligned(l, i - 1);
    }
  }

  /** Payloads are 8-aligned, inside the heap, and meet neither each other nor any header. */
  lemma PayloadsApart(l: Layout, i: nat, j: nat)
    requires Ok(l) && i < j < |l|
    ensures Payload(l, i) % 8 == 0 && Payload(l, j) % 8 == 0
    ensures HEAP_START <= Addr(l, i) && Payload(l, i) + l[i].size <= Addr(l, j)
    ensures Payload(l, j) + l[j].size <= HEAP_START + HEAP_SIZE
  {
    hide Offset;
    OffsetGrows(l, i, j);
    OffsetGrows(l, j, |l|);
    OffsetAligned(l, i);
    OffsetAligned(l, j);
  }

  // ---- Allocation ----

  /** Sizes are rounded up to 8, in 64-bit arithmetic. */
  function Round(size: nat): nat { (size + 7) % TWO_64 / 8 * 8 }

  lemma RoundHoldsIff(size: nat)
    requires size < TWO_64
    ensures Round(size) % 8 == 0 && (Round(size) >= size <==> size <= TWO_64 - 8)
  {
  }

  predicate Fits(c: Cell, size: nat) { !c.used && c.size >= size }

  function FirstFit(l: Layout, size: nat, i: nat): (r: nat)
    requires i <= |l|
    ensures i <= r <= |l| && (r < |l| ==> Fits(l[r], size)) && forall k :: i <= k < r ==> !Fits(l[k], size)
    decreases |l| - i
  {
    if i == |l| || Fits(l[i], size) then i else FirstFit(l, size, i + 1)
  }

  /** Cuts a block that is large enough in two; the second part is free. */
  function Split(l: Layout, i: nat, size: nat): Layout
    requires i < |l| && size <= l[i].size
  {
    if l[i].size < size + HEADER + MIN_BLOCK then l
    else l[..i] + [Cell(size, l[i].used), Cell(l[i].size - size - HEADER, false)] + l[i + 1..]
  }

  function Take(l: Layout, i: nat, size: nat): Layout
    requires i < |l| && Fits(l[i], size)
  {
    var s := Split(l, i, size);
    s[i := s[i].(used := true)]
  }

  /** The layout after a request, and the index of the block given out, |l| if there is none. */
  function Allocate(l: Layout, size: nat): (Layout, nat) {
    var i := if size == 0 then |l| else FirstFit(l, Round(size), 0);
    if i == |l| then (l, |l|) else (Take(l, i, Round(size)), i)
  }

  /** The address given out for a request, 0 if it fails. */
  function Given(l: Layout, size: nat): nat {
    var i := Allocate(l, size).1;
    if i < |l| then Payload(l, i) else 0
  }

  lemma SplitOffsets(l: Layout, i: nat, size: nat, s: Layout)
    requires i < |l| && size + HEADER + MIN_BLOCK <= l[i].size && s == Split(l, i, size)
    ensures |s| == |l| + 1
    ensures forall k :: 0 <= k <= i ==> Offset(s, k) == Offset(l, k)
    ensures Offset(s, i + 1) == Offset(l, i) + HEADER + size
    ensures forall k :: i < k <= |l| ==> Offset(s, k + 1) == Offset(l, k)
  {
    hide Offset;
    assert CutAt(s, l, i);
    forall k | 0 <= k <= i
      ensures Offset(s, k) == Offset(l, k)
    {
      CutOffsets(s, l, i, k);
    }
    forall k | i < k <= |l|
      ensures Offset(s, k + 1) == Offset(l, k)
    {
      CutOffsets(s, l, i, k);
    }
    OffsetStep(s, i);
  }

  /** Marking blocks does not move anything. */
  lemma {:induction false} OffsetMark(l: Layout, i: nat, used: bool, k: nat)
    requires i < |l| && k <= |l|
    ensures Offset(l[i := l[i].(used := used)], k) == Offset(l, k)
  {
    if k > 0 {
      OffsetMark(l, i, used, k - 1);
    }
  }

  lemma TakeKeepsOk(l: Layout, i: nat, size: nat)
    requires Ok(l) && i < |l| && Fits(l[i], size) && size % 8 == 0
    ensures Ok(Take(l, i, size))
  {
    hide Offset;
    var s := Split(l, i, size);
    if s != l {
      SplitOffsets(l, i, size, s);
    }
    OffsetMark(s, i, true, |s|);
  }

  /** A live block keeps its place and size whatever is allocated. */
  lemma TakeKeepsBlocks(l: Layout, i: nat, size: nat, k: nat)
    requires i < |l| && Fits(l[i], size) && k < |l| && k != i
    ensures var t := Take(l, i, size);
            var m := if k < i then k else k + |t| - |l|;
            m < |t| && t[m] == l[k] && Addr(t, m) == Addr(l, k)
  {
    hide Offset;
    var s := Split(l, i, size);
    if s != l {
      SplitOffsets(l, i, size, s);
    }
    OffsetMark(s, i, true, if k < i then k else k + |s| - |l|);
  }

  /** The block given out is where the free block was, is large enough, and is in use. */
  lemma TakenBlock(l: Layout, i: nat, size: nat)
    requires i < |l| && Fits(l[i], size)
    ensures var t := Take(l, i, size); i < |t| && t[i].used && t[i].size >= size && Addr(t, i) == Addr(l, i)
  {
    hide Offset;
    var s := Split(l, i, size);
    if s != l {
      SplitOffsets(l, i, size, s);
    }
    OffsetMark(s, i, true, i);
  }

  /** A request fails exactly when it is for nothing, or no free block is large enough. */
  lemma AllocateFailsIff(l: Layout, size: nat)
    requires Ok(l)
    ensures Allocate(l, size).1 == |l| <==> size == 0 || forall k :: 0 <= k < |l| && !l[k].used ==>
            l[k].size < Round(size)
  {
    hide Offset, Round;
    if size != 0 {
      var i := FirstFit(l, Round(size), 0);
      if i == |l| {
        forall k | 0 <= k < |l| && !l[k].used
          ensures l[k].size < Round(size)
        {
          assert !Fits(l[k], Round(size));
        }
      } else {
        assert Fits(l[i], Round(size));
      }
    }
  }

  // ---- Freeing ----

  /** Joins block i with the next one if that is free. */
  function MergeNext(l: Layout, i: nat): Layout
    requires i < |l|
  {
    if i + 1 == |l| || l[i + 1].used then l
    else l[..i] + [Cell(l[i].size + HEADER + l[i + 1].size, l[i].used)] + l[i + 2..]
  }

  function MergePrevious(l: Layout, i: nat): Layout
    requires i < |l|
  {
    if i == 0 || l[i - 1].used then l else MergeNext(l, i - 1)
  }

  function Release(l: Layout, i: nat): Layout
    requires i < |l|
  {
    MergePrevious(MergeNext(l[i := l[i].(used := false)], i), i)
  }

  lemma MergeOffsets(l: Layout, i: nat, m: Layout)
    requires i + 1 < |l| && !l[i + 1].used && m == MergeNext(l, i)
    ensures |m| == |l| - 1
    ensures forall k :: 0 <= k <= i ==> Offset(m, k) == Offset(l, k)
    ensures forall k :: i + 1 < k <= |l| ==> Offset(m, k - 1) == Offset(l, k)
  {
    hide Offset;
    assert CutAt(l, m, i);
    forall k | 0 <= k <= i
      ensures Offset(m, k) == Offset(l, k)
    {
      CutOffsets(l, m, i, k);
    }
    forall k | i + 1 < k <= |l|
      ensures Offset(m, k - 1) == Offset(l, k)
    {
      CutOffsets(l, m, i, k - 1);
    }
  }

  /** Apart from block i, which may now be free between free neighbours, the layout is a good one. */
  predicate OkBut(l: Layout, i: nat) {
    && l != [] && Offset(l, |l|) == HEAP_SIZE
    && (forall k :: 0 <= k < |l| ==> l[k].size % 8 == 0)
    && (forall k :: 0 <= k < |l| - 1 && k != i && k + 1 != i ==> l[k].used || l[k + 1].used)
  }

  lemma MergeNextOk(l: Layout, i: nat)
    requires OkBut(l, i) && i < |l| && !l[i].used && (i + 2 < |l| ==> l[i + 1].used || l[i + 2].used)
    ensures var m := MergeNext(l, i); OkBut(m, i) && i < |m| && !m[i].used && (i + 1 < |m| ==> m[i + 1].used)
  {
    hide Offset;
    var m := MergeNext(l, i);
    if m != l {
      MergeOffsets(l, i, m);
      forall k | 0 <= k < |m| - 1 && k != i && k + 1 != i
        ensures m[k].used || m[k + 1].used
      {
        var j := if k < i then k else k + 1;
        assert m[k] == l[j] && m[k + 1] == l[j + 1];
      }
    }
  }

  lemma MergePreviousOk(l: Layout, i: nat)
    requires OkBut(l, i) && i < |l| && !l[i].used && (i + 1 < |l| ==> l[i + 1].used)
    requires i >= 2 ==> l[i - 2].used || l[i - 1].used
    ensures Ok(MergePrevious(l, i))
  {
    hide Offset;
    var m := MergePrevious(l, i);
    if m != l {
      MergeOffsets(l, i - 1, m);
      forall k | 0 <= k < |m| - 1
        ensures m[k].used || m[k + 1].used
      {
        if k + 1 < i - 1 {
          assert m[k] == l[k] && m[k + 1] == l[k + 1];
        } else if k >= i {
          assert m[k] == l[k + 1] && m[k + 1] == l[k + 2];
        } else if k == i - 1 {
          assert m[k + 1] == l[i + 1];
        } else {
          assert m[k] == l[i - 2];
        }
      }
    }
  }

  /** Freeing a live block leaves a good layout. */
  lemma ReleaseKeepsOk(l: Layout, i: nat)
    requires Ok(l) && i < |l| && l[i].used
    ensures Ok(Release(l, i))
  {
    hide Offset;
    var a := l[i := l[i].(used := false)];
    OffsetMark(l, i, false, |l|);
    assert OkBut(a, i);
    MergeNextOk(a, i);
    MergePreviousOk(MergeNext(a, i), i);
  }

  /** A live block keeps its place and size when another one is freed. */
  lemma ReleaseKeepsBlocks(l: Layout, i: nat, k: nat)
    requires Ok(l) && i < |l| && k < |l| && k != i && l[k].used
    ensures var r := Release(l, i);
            var m := if k < i then k else k + |r| - |l|;
            0 <= m < |r| && r[m] == l[k] && Addr(r, m) == Addr(l, k)
  {
    hide Offset;
    var a := l[i := l[i].(used := false)];
    OffsetMark(l, i, false, k);
    var b := MergeNext(a, i);
    var kb := if k < i then k else k + |b| - |a|;
    if b != a {
      MergeOffsets(a, i, b);
    }
    assert b[kb] == l[k] && Offset(b, kb) == Offset(l, k);
    var c := MergePrevious(b, i);
    if c != b {
      MergeOffsets(b, i - 1, c);
    }
  }

  lemma FirstTwo(l: Layout)
    requires Ok(l)
    ensures |l| == 1 || l[0].used || l[1].used
  {
    if |l| > 1 {
      assert l[0].used || l[0 + 1].used;
    }
  }

  /** When nothing is in use the heap is one block again. */
  lemma AllFreeIsInitial(l: Layout)
    requires Ok(l) && forall k :: 0 <= k < |l| ==> !l[k].used
    ensures l == INITIAL
  {
    FirstTwo(l);
    assert Offset(l, 1) == HEADER + l[0].size;
  }

  // ---- Blocks by address ----

  /** The block in use whose payload is ptr, |l| if there is none. */
  function BlockAt(l: Layout, ptr: nat, i: nat): (r: nat)
    requires i <= |l|
    ensures i <= r <= |l| && (r < |l| ==> l[r].used && Payload(l, r) == ptr)
    ensures forall k :: i <= k < r ==> !(l[k].used && Payload(l, k) == ptr)
    decreases |l| - i
  {
    if i == |l| || (l[i].used && Payload(l, i) == ptr) then i else BlockAt(l, ptr, i + 1)
  }

  predicate IsLive(l: Layout, ptr: nat) { BlockAt(l, ptr, 0) < |l| }

  function SizeAt(l: Layout, ptr: nat): nat
    requires IsLive(l, ptr)
  {
    l[BlockAt(l, ptr, 0)].size
  }

  function Freed(l: Layout, ptr: nat): Layout {
    var i := BlockAt(l, ptr, 0);
    if i == |l| then l else Release(l, i)
  }

  lemma AllocateKeepsOk(l: Layout, size: nat)
    requires Ok(l)
    ensures Ok(Allocate(l, size).0)
  {
    hide Offset;
    var i := if size == 0 then |l| else FirstFit(l, Round(size), 0);
    if i < |l| {
      TakeKeepsOk(l, i, Round(size));
    }
  }

  lemma FreedKeepsOk(l: Layout, ptr: nat)
    requires Ok(l)
    ensures Ok(Freed(l, ptr))
  {
    hide Offset, Ok;
    var i := BlockAt(l, ptr, 0);
    if i < |l| {
      ReleaseKeepsOk(l, i);
    }
  }

  /** Two blocks never share a payload address. */
  lemma FoundBlock(l: Layout, i: nat)
    requires i < |l| && l[i].used
    ensures BlockAt(l, Payload(l, i), 0) == i
  {
    hide Offset;
    var r := BlockAt(l, Payload(l, i), 0);
    if r < i {
      OffsetGrows(l, r, i);
    }
  }

  lemma AllocateKeepsLive(l: Layout, size: nat, ptr: nat)
    requires Ok(l) && IsLive(l, ptr)
    ensures IsLive(Allocate(l, size).0, ptr) && SizeAt(Allocate(l, size).0, ptr) == SizeAt(l, ptr)
  {
    hide Offset, Round;
    var (t, i) := Allocate(l, size);
    var k := BlockAt(l, ptr, 0);
    if i < |l| {
      TakeKeepsBlocks(l, i, Round(size), k);
      FoundBlock(t, if k < i then k else k + |t| - |l|);
    }
  }

  lemma FreedKeepsLive(l: Layout, other: nat, ptr: nat)
    requires Ok(l) && IsLive(l, ptr) && ptr != other
    ensures IsLive(Freed(l, other), ptr) && SizeAt(Freed(l, other), ptr) == SizeAt(l, ptr)
  {
    hide Offset, Release, Ok;
    var i, k := BlockAt(l, other, 0), BlockAt(l, ptr, 0);
    if i < |l| {
      ReleaseKeepsBlocks(l, i, k);
      var r := Release(l, i);
      FoundBlock(r, if k < i then k else k + |r| - |l|);
    }
  }

  lemma UsedNeighbours(l: Layout, i: nat)
    requires Ok(l) && i < |l| && !l[i].used
    ensures (i + 1 < |l| ==> l[i + 1].used) && (i > 0 ==> l[i - 1].used)
  {
    if i > 0 {
      var k := i - 1;
      assert l[k + 1] == l[i];
    }
  }

  /** The block given out was not in use before, is now, and holds the rounded size. */
  lemma GivenIsNew(l: Layout, size: nat)
    requires Ok(l) && Given(l, size) != 0
    ensures var t, p := Allocate(l, size).0, Given(l, size);
            && !IsLive(l, p) && IsLive(t, p) && SizeAt(t, p) >= Round(size)
            && BlockAt(t, p, 0) == Allocate(l, size).1
  {
    hide Offset, Round;
    var (t, i) := Allocate(l, size);
    TakenBlock(l, i, Round(size));
    FoundBlock(t, i);
    var k := BlockAt(l, Payload(l, i), 0);
    if k < i {
      OffsetGrows(l, k, i);
    } else if i < k < |l| {
      OffsetGrows(l, i, k);
    }
  }

  /** Live payloads lie inside the heap, and two of them apart. */
  lemma LiveApart(l: Layout, p: nat, q: nat)
    requires Ok(l) && IsLive(l, p) && IsLive(l, q)
    ensures HEAP_START <= p && p + SizeAt(l, p) <= HEAP_START + HEAP_SIZE
    ensures p != q ==> p + SizeAt(l, p) <= q || q + SizeAt(l, q) <= p
  {
    hide Offset;
    var i, j := BlockAt(l, p, 0), BlockAt(l, q, 0);
    OffsetGrows(l, i, |l|);
    if i < j {
      OffsetGrows(l, i, j);
    } else if j < i {
      OffsetGrows(l, j, i);
    }
  }

  /** A store inside a live payload meets no header and no other live payload. */
  lemma StoreStaysInside(l: Layout, p: nat, offset: nat, k: nat)
    requires Ok(l) && IsLive(l, p) && offset < SizeAt(l, p) && k < |l|
    ensures !(Addr(l, k) <= p + offset < Addr(l, k) + HEADER)
    ensures l[k].used && Payload(l, k) != p ==> !(Payload(l, k) <= p + offset < Payload(l, k) + l[k].size)
  {
    hide Offset;
    var i := BlockAt(l, p, 0);
    if i < k {
      OffsetGrows(l, i, k);
    } else if k < i {
      OffsetGrows(l, k, i);
    }
  }
}
