/** The heap as the kernel keeps it: block headers at addresses, linked both ways and edited in place. */
module Heap {
  import opened Bits
  import opened HeapLayout
  import opened HeapRuns

  const MAGIC: nat := 0xDEADBEEF
  const NULL: nat := 0

  datatype Header = Header(size: nat, next: nat, prev: nat, used: bool, magic: nat)

  /** The header block i of a layout should have. */
  function HeaderOf(l: Layout, i: nat): Header
    requires i < |l|
  {
    Header(l[i].size, if i + 1 < |l| then Addr(l, i + 1) else NULL, if i > 0 then Addr(l, i - 1)
        else NULL, l[i].used, MAGIC)
  }

  ghost predicate At(h: map<nat, Header>, l: Layout, i: nat)
    requires i < |l|
  {
    Addr(l, i) in h && h[Addr(l, i)] == HeaderOf(l, i)
  }

  /** The headers in memory are those of the layout; old headers may lie around elsewhere. */
  ghost predicate Linked(h: map<nat, Header>, l: Layout) {
    forall i :: 0 <= i < |l| ==> At(h, l, i)
  }

  lemma Distinct(l: Layout, i: nat, j: nat)
    requires i < |l| && j < |l| && i != j
    ensures Addr(l, i) != Addr(l, j) && Addr(l, i) != NULL
  {
    if i < j {
      OffsetGrows(l, i, j);
    } else {
      OffsetGrows(l, j, i);
    }
  }

  /** Next and previous are each other's inverses. */
  lemma LinksInverse(h: map<nat, Header>, l: Layout, i: nat)
    requires Linked(h, l) && i < |l|
    ensures Addr(l, i) in h
    ensures var b := h[Addr(l, i)];
            && (b.next != NULL ==> b.next in h && h[b.next].prev == Addr(l, i))
            && (b.prev != NULL ==> b.prev in h && h[b.prev].next == Addr(l, i))
            && (b.next == NULL <==> i + 1 == |l|) && (b.prev == NULL <==> i == 0)
  {
    hide Addr;
    assert At(h, l, i);
    if i + 1 < |l| {
      assert At(h, l, i + 1);
      Distinct(l, i + 1, i);
    }
    if i > 0 {
      assert At(h, l, i - 1);
      Distinct(l, i - 1, i);
    }
  }

  function SetPrev(h: map<nat, Header>, a: nat, prev: nat): map<nat, Header> {
    if a == NULL || a !in h then h else h[a := h[a].(prev := prev)]
  }

  // ---- Splitting ----

  function SplitHeaders(h: map<nat, Header>, block: nat, size: nat): map<nat, Header>
    requires block in h && h[block].size >= size + HEADER
  {
    var b, rest := h[block], block + HEADER + size;
    SetPrev(h[rest := Header(b.size - size - HEADER, b.next, block, false, MAGIC)]
             [block := b.(size := size, next := rest)], b.next, rest)
  }

  lemma SplitLinked(h: map<nat, Header>, l: Layout, i: nat, size: nat)
    requires Linked(h, l) && i < |l| && size + HEADER + MIN_BLOCK <= l[i].size && Offset(l, |l|) == HEAP_SIZE
    ensures At(h, l, i) && Linked(SplitHeaders(h, Addr(l, i), size), Split(l, i, size))
  {
    hide Offset;
    assert At(h, l, i);
    var s, r := Split(l, i, size), SplitHeaders(h, Addr(l, i), size);
    SplitOffsets(l, i, size, s);
    forall k | 0 <= k < |s|
      ensures At(r, s, k)
    {
      SplitLinkedAt(h, l, i, size, k);
    }
  }

  lemma SplitLinkedBefore(h: map<nat, Header>, l: Layout, i: nat, size: nat, k: nat)
    requires Linked(h, l) && i < |l| && size + HEADER + MIN_BLOCK <= l[i].size && k < i
    ensures At(h, l, i) && |Split(l, i, size)| == |l| + 1
    ensures At(SplitHeaders(h, Addr(l, i), size), Split(l, i, size), k)
  {
    hide Offset;
    assert At(h, l, i) && At(h, l, k);
    var s := Split(l, i, size);
    SplitOffsets(l, i, size, s);
    Distinct(s, k, i);
    Distinct(s, k, i + 1);
    if i + 1 < |l| {
      Distinct(l, k, i + 1);
    }
  }

  lemma SplitLinkedHere(h: map<nat, Header>, l: Layout, i: nat, size: nat)
    requires Linked(h, l) && i < |l| && size + HEADER + MIN_BLOCK <= l[i].size
    ensures At(h, l, i) && |Split(l, i, size)| == |l| + 1
    ensures At(SplitHeaders(h, Addr(l, i), size), Split(l, i, size), i)
    ensures At(SplitHeaders(h, Addr(l, i), size), Split(l, i, size), i + 1)
  {
    hide Offset;
    assert At(h, l, i);
    var s := Split(l, i, size);
    SplitOffsets(l, i, size, s);
    Distinct(s, i, i + 1);
    if i + 1 < |l| {
      assert At(h, l, i + 1);
      Distinct(l, i + 1, i);
      Distinct(s, i + 2, i + 1);
    }
  }

  lemma SplitLinkedNext(h: map<nat, Header>, l: Layout, i: nat, size: nat)
    requires Linked(h, l) && i < |l| && size + HEADER + MIN_BLOCK <= l[i].size && i + 1 < |l|
    ensures At(h, l, i) && |Split(l, i, size)| == |l| + 1
    ensures At(SplitHeaders(h, Addr(l, i), size), Split(l, i, size), i + 2)
  {
    hide Offset;
    assert At(h, l, i) && At(h, l, i + 1);
    var s := Split(l, i, size);
    SplitOffsets(l, i, size, s);
    Distinct(s, i + 2, i);
    Distinct(s, i + 2, i + 1);
    Distinct(l, i + 1, i);
  }

  lemma SplitLinkedAfter(h: map<nat, Header>, l: Layout, i: nat, size: nat, k: nat)
    requires Linked(h, l) && i < |l| && size + HEADER + MIN_BLOCK <= l[i].size && i + 2 < k < |l| + 1
    ensures At(h, l, i) && |Split(l, i, size)| == |l| + 1
    ensures At(SplitHeaders(h, Addr(l, i), size), Split(l, i, size), k)
  {
    hide Offset;
    assert At(h, l, i) && At(h, l, k - 1) && At(h, l, i + 1);
    var s := Split(l, i, size);
    SplitOffsets(l, i, size, s);
    Distinct(s, k, i);
    Distinct(s, k, i + 1);
    Distinct(l, i + 1, i);
    Distinct(l, k - 1, i + 1);
  }

  lemma SplitLinkedAt(h: map<nat, Header>, l: Layout, i: nat, size: nat, k: nat)
    requires Linked(h, l) && i < |l| && size + HEADER + MIN_BLOCK <= l[i].size && k < |l| + 1
    ensures At(h, l, i) && |Split(l, i, size)| == |l| + 1
    ensures At(SplitHeaders(h, Addr(l, i), size), Split(l, i, size), k)
  {
    hide Offset, SplitHeaders, Split, Addr, Linked, HeaderOf;
    SplitLinkedHere(h, l, i, size);
    if k < i {
      SplitLinkedBefore(h, l, i, size, k);
    } else if k == i + 2 {
      SplitLinkedNext(h, l, i, size);
    } else if k > i + 2 {
      SplitLinkedAfter(h, l, i, size, k);
    }
  }

  // ---- Merging and marking ----

  /** Block absorbs the block after it. */
  function MergeHeaders(h: map<nat, Header>, block: nat): map<nat, Header>
    requires block in h && h[block].next in h
  {
    var b := h[block];
    var n := h[b.next];
    SetPrev(h[block := b.(size := b.size + HEADER + n.size, next := n.next)], n.next, block)
  }

  lemma MergeLinkedBefore(h: map<nat, Header>, l: Layout, i: nat, k: nat)
    requires Linked(h, l) && i + 1 < |l| && !l[i + 1].used && k < i
    ensures At(h, l, i) && At(h, l, i + 1) && |MergeNext(l, i)| == |l| - 1
    ensures At(MergeHeaders(h, Addr(l, i)), MergeNext(l, i), k)
  {
    hide Offset;
    assert At(h, l, i) && At(h, l, i + 1) && At(h, l, k);
    MergeOffsets(l, i, MergeNext(l, i));
    Distinct(l, k, i);
    if i + 2 < |l| {
      Distinct(l, k, i + 2);
    }
  }

  lemma MergeLinkedHere(h: map<nat, Header>, l: Layout, i: nat)
    requires Linked(h, l) && i + 1 < |l| && !l[i + 1].used
    ensures At(h, l, i) && At(h, l, i + 1) && |MergeNext(l, i)| == |l| - 1
    ensures At(MergeHeaders(h, Addr(l, i)), MergeNext(l, i), i)
  {
    hide Offset;
    assert At(h, l, i) && At(h, l, i + 1);
    MergeOffsets(l, i, MergeNext(l, i));
    if i + 2 < |l| {
      assert At(h, l, i + 2);
      Distinct(l, i + 2, i);
    }
  }

  lemma MergeLinkedAfter(h: map<nat, Header>, l: Layout, i: nat, k: nat)
    requires Linked(h, l) && i + 1 < |l| && !l[i + 1].used && i < k < |l| - 1
    ensures At(h, l, i) && At(h, l, i + 1) && |MergeNext(l, i)| == |l| - 1
    ensures At(MergeHeaders(h, Addr(l, i)), MergeNext(l, i), k)
  {
    hide Offset;
    assert At(h, l, i) && At(h, l, i + 1) && At(h, l, k + 1) && At(h, l, i + 2);
    MergeOffsets(l, i, MergeNext(l, i));
    Distinct(l, k + 1, i);
    Distinct(l, i + 2, i);
    if k > i + 1 {
      Distinct(l, k + 1, i + 2);
    }
  }

  lemma MergeLinkedAt(h: map<nat, Header>, l: Layout, i: nat, k: nat)
    requires Linked(h, l) && i + 1 < |l| && !l[i + 1].used && k < |l| - 1
    ensures At(h, l, i) && At(h, l, i + 1) && |MergeNext(l, i)| == |l| - 1
    ensures At(MergeHeaders(h, Addr(l, i)), MergeNext(l, i), k)
  {
    hide Offset, MergeHeaders, MergeNext, Addr, Linked, HeaderOf;
    MergeLinkedHere(h, l, i);
    if k < i {
      MergeLinkedBefore(h, l, i, k);
    } else if k > i {
      MergeLinkedAfter(h, l, i, k);
    }
  }

  lemma MergeLinked(h: map<nat, Header>, l: Layout, i: nat)
    requires Linked(h, l) && i + 1 < |l| && !l[i + 1].used
    ensures At(h, l, i) && At(h, l, i + 1)
    ensures Linked(MergeHeaders(h, Addr(l, i)), MergeNext(l, i)) && Addr(MergeNext(l, i), i) == Addr(l, i)
    ensures |MergeNext(l, i)| == |l| - 1
  {
    hide Offset;
    assert At(h, l, i) && At(h, l, i + 1);
    MergeOffsets(l, i, MergeNext(l, i));
    forall k | 0 <= k < |l| - 1
      ensures At(MergeHeaders(h, Addr(l, i)), MergeNext(l, i), k)
    {
      MergeLinkedAt(h, l, i, k);
    }
  }

  lemma MarkLinked(h: map<nat, Header>, l: Layout, i: nat, used: bool)
    requires Linked(h, l) && i < |l|
    ensures At(h, l, i)
    ensures Linked(h[Addr(l, i) := h[Addr(l, i)].(used := used)], l[i := l[i].(used := used)])
    ensures Addr(l[i := l[i].(used := used)], i) == Addr(l, i)
  {
    hide Offset;
    assert At(h, l, i);
    var m := l[i := l[i].(used := used)];
    var r := h[Addr(l, i) := h[Addr(l, i)].(used := used)];
    forall k | 0 <= k < |m|
      ensures At(r, m, k)
    {
      assert At(h, l, k);
      OffsetMark(l, i, used, k);
      if k > 0 {
        OffsetMark(l, i, used, k - 1);
      }
      if k + 1 < |l| {
        OffsetMark(l, i, used, k + 1);
      }
      if k != i {
        Distinct(l, k, i);
      }
    }
    OffsetMark(l, i, used, i);
  }

  /** The bytes with i of them copied. */
  function Copied(bytes: seq<Byte>, from: nat, to: nat, i: nat): (r: seq<Byte>)
    requires from + i <= |bytes| && to + i <= |bytes|
    ensures |r| == |bytes|
  {
    bytes[..to] + bytes[from..from + i] + bytes[to + i..]
  }

  /** Copies n bytes to a stretch apart from where they are. */
  method CopyWithin(bytes: seq<Byte>, from: nat, to: nat, n: nat) returns (r: seq<Byte>)
    requires from + n <= |bytes| && to + n <= |bytes| && (from + n <= to || to + n <= from)
    ensures |r| == |bytes| && r[to..to + n] == bytes[from..from + n]
    ensures r[..to] == bytes[..to] && r[to + n..] == bytes[to + n..]
  {
    hide Copied;
    r := bytes;
    CopyStart(bytes, from, to);
    for i := 0 to n
      invariant r == Copied(bytes, from, to, i)
    {
      CopyStep(bytes, from, to, i);
      r := r[to + i := r[from + i]];
    }
    CopyEnd(bytes, from, to, n);
  }

  lemma CopyStart(bytes: seq<Byte>, from: nat, to: nat)
    requires from <= |bytes| && to <= |bytes|
    ensures Copied(bytes, from, to, 0) == bytes
  {
  }

  lemma CopyStep(bytes: seq<Byte>, from: nat, to: nat, i: nat)
    requires from + i < |bytes| && to + i < |bytes| && (from + i < to || to + i < from)
    ensures var r := Copied(bytes, from, to, i); r[to + i := r[from + i]] == Copied(bytes, from, to, i + 1)
  {
    var r, n := Copied(bytes, from, to, i), Copied(bytes, from, to, i + 1);
    assert r[from + i] == bytes[from + i];
    forall k | 0 <= k < |bytes|
      ensures r[to + i := r[from + i]][k] == n[k]
    {
      if to <= k < to + i {
        assert r[k] == bytes[from + (k - to)];
      }
    }
  }

  lemma CopyEnd(bytes: seq<Byte>, from: nat, to: nat, n: nat)
    requires from + n <= |bytes| && to + n <= |bytes|
    ensures var r := Copied(bytes, from, to, n);
            r[to..to + n] == bytes[from..from + n] && r[..to] == bytes[..to] && r[to + n..] == bytes[to + n..]
  {
  }

  class KernelHeap {
    var headers: map<nat, Header>
    var bytes: seq<Byte>
    ghost var layout: Layout

    ghost predicate Valid()
      reads this
    {
      Ok(layout) && Linked(headers, layout) && |bytes| == HEAP_SIZE
    }

    /** One free block covers the whole heap. */
    constructor ()
      ensures Valid() && layout == INITIAL
    {
      bytes := seq(HEAP_SIZE, _ => 0);
      headers := map[HEAP_START := Header(HEAP_SIZE - HEADER, NULL, NULL, false, MAGIC)];
      layout := INITIAL;
      new;
      assert Offset(INITIAL, 1) == Offset(INITIAL, 0) + HEADER + (HEAP_SIZE - HEADER);
      assert At(headers, layout, 0);
    }

    method SplitBlock(block: nat, size: nat, ghost i: nat)
      requires Valid() && i < |layout| && block == Addr(layout, i) && size <= layout[i].size
      modifies `headers, `layout
      ensures layout == Split(old(layout), i, size) && Linked(headers, layout)
    {
      hide Offset;
      assert At(headers, layout, i);
      if headers[block].size < size + HEADER + MIN_BLOCK {
        return;
      }
      SplitLinked(headers, layout, i, size);
      ghost var before := headers;
      var b := headers[block];
      var rest := block + HEADER + size;
      headers := headers[rest := Header(b.size - size - HEADER, b.next, block, false, MAGIC)];
      headers := headers[block := b.(size := size, next := rest)];
      if b.next != NULL && b.next in headers {
        headers := headers[b.next := headers[b.next].(prev := rest)];
      }
      assert headers == SplitHeaders(before, block, size);
      layout := Split(layout, i, size);
    }

    /** Absorbs the next block into block. */
    method Absorb(block: nat, ghost i: nat)
      requires i + 1 < |layout| && Linked(headers, layout) && block == Addr(layout, i) && !layout[i + 1].used
      modifies `headers, `layout
      ensures layout == MergeNext(old(layout), i) && Linked(headers, layout)
    {
      hide Offset;
      MergeLinked(headers, layout, i);
      ghost var before := headers;
      var next := headers[headers[block].next];
      headers := headers[block := headers[block].(size := headers[block].size + HEADER + next.size, next := next.next)];
      if next.next != NULL && next.next in headers {
        headers := headers[next.next := headers[next.next].(prev := block)];
      }
      assert headers == MergeHeaders(before, block);
      layout := MergeNext(layout, i);
    }

    /** Merges a freed block with its free neighbours. */
    method Coalesce(block: nat, ghost i: nat)
      requires i < |layout| && Linked(headers, layout) && block == Addr(layout, i) && !layout[i].used
      modifies `headers, `layout
      ensures layout == MergePrevious(MergeNext(old(layout), i), i) && Linked(headers, layout)
    {
      hide Offset, Addr;
      LinksInverse(headers, layout, i);
      assert At(headers, layout, i);
      var next := headers[block].next;
      if i + 1 < |layout| {
        assert At(headers, layout, i + 1);
      }
      if next != NULL && !headers[next].used {
        MergeLinked(headers, layout, i);
        Absorb(block, i);
      }
      assert block == Addr(layout, i);
      LinksInverse(headers, layout, i);
      assert At(headers, layout, i);
      var prev := headers[block].prev;
      if i > 0 {
        assert At(headers, layout, i - 1);
      }
      if prev != NULL && !headers[prev].used {
        LinksInverse(headers, layout, i - 1);
        Absorb(prev, i - 1);
      }
    }

    /** First fit from the lowest block on; 0 if the request cannot be met. */
    method Malloc(size: Size) returns (ptr: nat)
      requires Valid()
      modifies `headers, `layout
      ensures Valid() && Do(old(layout), MallocOp(size)) == Some(layout)
      ensures ptr == Given(old(layout), size)
      ensures ptr != NULL ==> !IsLive(old(layout), ptr) && IsLive(layout, ptr) && SizeAt(layout, ptr) >= Round(size)
    {
      hide Offset, Linked, Ok, Round, IsLive, SizeAt, Take, Split;
      if size == 0 {
        return NULL;
      }
      var rounded := Round(size);
      RoundHoldsIff(size);
      ghost var i := 0;
      var curr := HEAP_START;
      FirstBlock(headers, layout);
      while curr != NULL
        invariant i <= |layout| && layout == old(layout) && headers == old(headers)
        invariant curr == if i < |layout| then Addr(layout, i) else NULL
        invariant FirstFit(layout, rounded, 0) == FirstFit(layout, rounded, i)
        decreases |layout| - i
      {
        Header1(headers, layout, i);
        if !headers[curr].used && headers[curr].size >= rounded {
          TakeKeepsOk(layout, i, rounded);
          GivenFirst(layout, i, size);
          SplitAddr(layout, i, rounded);
          TakeIsMark(layout, i, rounded);
          SplitBlock(curr, rounded, i);
          MarkLinked(headers, layout, i, true);
          headers := headers[curr := headers[curr].(used := true)];
          layout := layout[i := layout[i].(used := true)];
          return curr + HEADER;
        }
        curr := headers[curr].next;
        i := i + 1;
      }
      ptr := NULL;
    }

    /** Frees a live block, or nothing for a null pointer. */
    method Free(ptr: nat)
      requires Valid() && (ptr == NULL || IsLive(layout, ptr))
      modifies `headers, `layout
      ensures Valid() && Do(old(layout), FreeOp(ptr)) == Some(layout)
    {
      hide Offset, Linked, Ok;
      if ptr == NULL {
        return;
      }
      ghost var i := BlockAt(layout, ptr, 0);
      var block := ptr - HEADER;
      Header1(headers, layout, i);
      if headers[block].magic != MAGIC {
        return;
      }
      ReleaseKeepsOk(layout, i);
      MarkLinked(headers, layout, i, false);
      headers := headers[block := headers[block].(used := false)];
      layout := layout[i := layout[i].(used := false)];
      Coalesce(block, i);
    }

    /** The size in the header of a live block. */
    method BlockSize(ptr: nat) returns (size: nat)
      requires Valid() && IsLive(layout, ptr)
      ensures size == SizeAt(layout, ptr)
    {
      hide Offset, Linked, Ok;
      Header1(headers, layout, BlockAt(layout, ptr, 0));
      size := headers[ptr - HEADER].size;
    }

    /** Copies a payload to another live block that is large enough. */
    method CopyPayload(from: nat, to: nat, n: nat)
      requires Valid() && IsLive(layout, from) && IsLive(layout, to) && from != to
      requires n <= SizeAt(layout, from) && n <= SizeAt(layout, to)
      modifies `bytes
      ensures Valid() && Contents(bytes, to, n) == Contents(old(bytes), from, n)
      ensures forall q: nat :: q != to && IsLive(layout, q) ==> SameContents(bytes, old(bytes), q, SizeAt(layout, q))
    {
      hide Offset, Linked, Ok, IsLive, SizeAt, Contents, SameContents;
      LiveApart(layout, from, to);
      LiveApart(layout, to, from);
      ghost var before := bytes;
      bytes := CopyWithin(bytes, from - HEAP_START, to - HEAP_START, n);
      CopiedContents(before, bytes, from, to, n);
      forall q: nat | q != to && IsLive(layout, q)
        ensures SameContents(bytes, before, q, SizeAt(layout, q))
      {
        LiveApart(layout, q, to);
        ApartSame(before, bytes, to, n, q, SizeAt(layout, q));
      }
    }

    /** Stores data at the start of a live payload. */
    method WritePayload(ptr: nat, data: seq<Byte>)
      requires Valid() && IsLive(layout, ptr) && |data| <= SizeAt(layout, ptr)
      modifies `bytes
      ensures Valid() && Contents(bytes, ptr, |data|) == data
      ensures forall q: nat :: q != ptr && IsLive(layout, q) ==> SameContents(bytes, old(bytes), q, SizeAt(layout, q))
    {
      hide Offset, Linked, Ok, IsLive, SizeAt;
      LiveApart(layout, ptr, ptr);
      ghost var before := bytes;
      var t := ptr - HEAP_START;
      bytes := bytes[..t] + data + bytes[t + |data|..];
      assert bytes[..t] == before[..t] && bytes[t + |data|..] == before[t + |data|..];
      forall q: nat | q != ptr && IsLive(layout, q)
        ensures SameContents(bytes, before, q, SizeAt(layout, q))
      {
        LiveApart(layout, q, ptr);
        ApartSame(before, bytes, ptr, |data|, q, SizeAt(layout, q));
      }
    }

    /** Grows a block by moving it, with its payload, when it is too small. If the copy would run over the end
        of the new block the call is given up there: nothing is promised of the heap after that. */
    method Realloc(ptr: nat, newSize: Size) returns (r: nat, overrun: bool)
      requires Valid() && (ptr == NULL || IsLive(layout, ptr))
      modifies this
      ensures r == if ptr == NULL || (newSize != 0 && SizeAt(old(layout), ptr) < newSize) then
              Given(old(layout), newSize)
                   else if newSize == 0 then NULL
                   else ptr
      ensures Do(old(layout), ReallocOp(ptr, newSize)) == if overrun then None else Some(layout)
      ensures !overrun ==> Valid()
      ensures !overrun && ptr != NULL && r != NULL ==>
                Contents(bytes, r, SizeAt(old(layout), ptr)) == Contents(old(bytes), ptr, SizeAt(old(layout), ptr))
      ensures !overrun ==>
                forall q: nat :: q != ptr && IsLive(old(layout), q) ==>
                  SameContents(bytes, old(bytes), q, SizeAt(old(layout), q))
    {
      hide Offset, Linked, Ok, Round, IsLive, SizeAt, Allocate, Contents, Freed, Given;
      overrun := false;
      ghost var l := layout;
      NullNotLive(l);
      if ptr == NULL {
        r := Malloc(newSize);
        return;
      }
      if newSize == 0 {
        Free(ptr);
        return NULL, false;
      }
      var size := BlockSize(ptr);
      if size >= newSize {
        return ptr, false;
      }
      r := Malloc(newSize);
      GivenIff(l, newSize);
      if r == NULL {
        return;
      }
      AllocateKeepsLive(l, newSize, ptr);
      var room := BlockSize(r);
      if room < size {
        overrun := true;
        return;
      }
      CopyPayload(ptr, r, size);
      forall q: nat | q != ptr && IsLive(l, q)
        ensures SameContents(bytes, old(bytes), q, SizeAt(l, q))
      {
        AllocateKeepsLive(l, newSize, q);
      }
      Free(ptr);
    }
  }

  /** The n payload bytes from ptr on. */
  function Contents(bytes: seq<Byte>, ptr: nat, n: nat): seq<Byte> {
    if HEAP_START <= ptr && ptr + n <= HEAP_START + |bytes| then bytes[ptr - HEAP_START..ptr - HEAP_START + n] else []
  }

  predicate SameContents(a: seq<Byte>, b: seq<Byte>, ptr: nat, n: nat) { Contents(a, ptr, n) == Contents(b, ptr, n) }

  lemma CopiedContents(a: seq<Byte>, b: seq<Byte>, from: nat, to: nat, n: nat)
    requires |a| == |b| == HEAP_SIZE && HEAP_START <= from && HEAP_START <= to
    requires from + n <= HEAP_START + HEAP_SIZE && to + n <= HEAP_START + HEAP_SIZE
    requires b[to - HEAP_START..to - HEAP_START + n] == a[from - HEAP_START..from - HEAP_START + n]
    ensures Contents(b, to, n) == Contents(a, from, n)
  {
  }

  lemma ApartSame(a: seq<Byte>, b: seq<Byte>, to: nat, n: nat, q: nat, k: nat)
    requires |a| == |b| == HEAP_SIZE && HEAP_START <= to && to + n <= HEAP_START + HEAP_SIZE
    requires a[..to - HEAP_START] == b[..to - HEAP_START] && a[to - HEAP_START + n..] == b[to - HEAP_START + n..]
    requires HEAP_START <= q && q + k <= HEAP_START + HEAP_SIZE && (q + k <= to || to + n <= q)
    ensures SameContents(b, a, q, k)
  {
    var i, t := q - HEAP_START, to - HEAP_START;
    forall j | i <= j < i + k
      ensures a[j] == b[j]
    {
      if q + k <= to {
        assert a[j] == a[..t][j] && b[j] == b[..t][j];
      } else {
        var m := j - t - n;
        assert a[j] == a[t + n..][m] && b[j] == b[t + n..][m];
      }
    }
    assert a[i..i + k] == b[i..i + k];
  }

  lemma NullNotLive(l: Layout)
    ensures !IsLive(l, NULL)
  {
  }

  lemma NullFreesNothing(l: Layout)
    ensures Freed(l, NULL) == l
  {
  }

  lemma GivenIff(l: Layout, size: nat)
    ensures Given(l, size) == NULL <==> Allocate(l, size).1 == |l|
    ensures Allocate(l, size).1 == |l| ==> Allocate(l, size).0 == l
  {
  }

  lemma TakeIsMark(l: Layout, i: nat, size: nat)
    requires i < |l| && Fits(l[i], size) && i < |Split(l, i, size)|
    ensures Take(l, i, size) == Split(l, i, size)[i := Split(l, i, size)[i].(used := true)]
  {
  }

  lemma GivenFirst(l: Layout, i: nat, size: nat)
    requires Ok(l) && size != 0 && i < |l| && FirstFit(l, Round(size), 0) == i
    ensures Allocate(l, size) == (Take(l, i, Round(size)), i) && Given(l, size) == Payload(l, i) != NULL
    ensures !IsLive(l, Payload(l, i)) && IsLive(Allocate(l, size).0, Payload(l, i))
    ensures SizeAt(Allocate(l, size).0, Payload(l, i)) >= Round(size)
  {
    hide Offset, Round;
    GivenIsNew(l, size);
  }

  lemma FirstBlock(h: map<nat, Header>, l: Layout)
    requires Ok(l) && Linked(h, l)
    ensures l != [] && Addr(l, 0) == HEAP_START
  {
  }

  lemma Header1(h: map<nat, Header>, l: Layout, i: nat)
    requires Linked(h, l) && i < |l|
    ensures At(h, l, i)
  {
  }

  lemma SplitAddr(l: Layout, i: nat, size: nat)
    requires i < |l| && size <= l[i].size
    ensures i < |Split(l, i, size)| && Addr(Split(l, i, size), i) == Addr(l, i)
  {
    hide Offset;
    if l[i].size >= size + HEADER + MIN_BLOCK {
      SplitOffsets(l, i, size, Split(l, i, size));
    }
  }
}
