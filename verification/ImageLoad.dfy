/** The two buffers an image is decoded with: when the heap can give them, and that all memory comes back. */
module ImageLoad {
  import opened Bits
  import opened HeapLayout
  import opened HeapRuns
  import opened HeapLive
  import Heap
  import Png
  import BitReader

  const MAX_OUTPUT: nat := 64 * 1024 * 1024

  function RawSize(width: nat, height: nat): nat { height * (width * 3 + 1) }

  function PixelSize(width: nat, height: nat): nat { width * height * 3 }

  /** No image of admitted width and height exceeds the limit on output. */
  lemma LimitNeverReached(width: nat, height: nat)
    requires width <= Png.MAX_DIMENSION && height <= Png.MAX_DIMENSION
    ensures RawSize(width, height) <= MAX_OUTPUT && PixelSize(width, height) <= MAX_OUTPUT
  {
    var m := Png.MAX_DIMENSION;
    MulMono(height, m, width * 3 + 1);
    MulMono(width * 3 + 1, m * 3 + 1, m);
    MulMono(width, m, height);
    MulMono(height, m, m);
  }

  /** The heap gives both buffers, the second after the first. */
  predicate BuffersFit(l: Layout, a: nat, b: nat) {
    Given(l, a) != 0 && Given(Allocate(l, a).0, b) != 0
  }

  // ---- When the heap can give both ----

  /** Two blocks in use take their sizes and two headers out of the heap. */
  lemma TwoBlocks(l: Layout, p: nat, q: nat)
    requires Ok(l) && IsLive(l, p) && IsLive(l, q) && p != q
    ensures SizeAt(l, p) + SizeAt(l, q) + 2 * HEADER <= HEAP_SIZE
  {
    hide Offset;
    var i, j := BlockAt(l, p, 0), BlockAt(l, q, 0);
    OffsetGrows(l, i, |l|);
    OffsetGrows(l, j, |l|);
    if i < j {
      OffsetGrows(l, i, j);
    } else {
      OffsetGrows(l, j, i);
    }
  }

  lemma FitNeedsRoom(l: Layout, a: nat, b: nat)
    requires Ok(l) && BuffersFit(l, a, b)
    ensures Round(a) + Round(b) + 2 * HEADER <= HEAP_SIZE
  {
    hide Ok, Round, Allocate, Given, IsLive, SizeAt;
    GivenIsNew(l, a);
    var m := Allocate(l, a).0;
    AllocateKeepsOk(l, a);
    GivenIsNew(m, b);
    AllocateKeepsOk(m, b);
    AllocateKeepsLive(m, b, Given(l, a));
    TwoBlocks(Allocate(m, b).0, Given(l, a), Given(m, b));
  }

  lemma EmptyHeapGivesBoth(a: nat, b: nat)
    requires 0 < a && 0 < b && Round(a) + Round(b) + 2 * HEADER <= HEAP_SIZE
    requires Round(a) + 2 * HEADER + MIN_BLOCK <= HEAP_SIZE
    ensures BuffersFit(INITIAL, a, b)
  {
    hide Round;
    var l, n := INITIAL, Round(a);
    assert Fits(l[0], n);
    var m := Allocate(l, a).0;
    assert m == [Cell(n, true), Cell(HEAP_SIZE - n - 2 * HEADER, false)];
    assert Fits(m[1], Round(b));
  }

  /** Some sound heap gives both buffers of an image exactly when the two, rounded and with their headers, are
      no larger than the heap. */
  lemma ImageFitsIff(width: nat, height: nat)
    requires 0 < width <= Png.MAX_DIMENSION && 0 < height <= Png.MAX_DIMENSION
    ensures var a, b := RawSize(width, height), PixelSize(width, height);
            (exists l :: Ok(l) && BuffersFit(l, a, b)) <==> Round(a) + Round(b) + 2 * HEADER <= HEAP_SIZE
  {
    hide Ok, BuffersFit;
    var a, b := RawSize(width, height), PixelSize(width, height);
    forall l | Ok(l) && BuffersFit(l, a, b)
      ensures Round(a) + Round(b) + 2 * HEADER <= HEAP_SIZE
    {
      FitNeedsRoom(l, a, b);
    }
    if Round(a) + Round(b) + 2 * HEADER <= HEAP_SIZE {
      RawAtMostTwice(width, height);
      LimitNeverReached(width, height);
      RoundSmall(a);
      RoundSmall(b);
      InitialOk();
      EmptyHeapGivesBoth(a, b);
    }
  }

  lemma RoundSmall(n: nat)
    requires n <= MAX_OUTPUT
    ensures n <= Round(n) < n + 8
  {
  }

  /** The raw data is at most twice the pixels. */
  lemma RawAtMostTwice(width: nat, height: nat)
    requires 0 < width && 0 < height
    ensures 0 < PixelSize(width, height) <= RawSize(width, height) <= 2 * PixelSize(width, height)
  {
    Distribute(height, width * 3, 1);
    MulAssoc(height, width, 3);
    MulAtLeast(height, width);
    assert height * (width * 3) == PixelSize(width, height);
  }

  /** An image of 2000 by 2000 pixels never loads, in whatever state the heap is. */
  lemma TwoThousandNeverFits(l: Layout)
    requires Ok(l)
    ensures !BuffersFit(l, RawSize(2000, 2000), PixelSize(2000, 2000))
  {
    var a, b := RawSize(2000, 2000), PixelSize(2000, 2000);
    if BuffersFit(l, a, b) {
      FitNeedsRoom(l, a, b);
    }
  }

  // ---- Giving everything back ----

  /** Freeing one block gives the heap before it was allocated. */
  lemma OneComesBack(l: Layout, a: nat)
    requires Ok(l) && Given(l, a) != 0
    ensures Freed(Allocate(l, a).0, Given(l, a)) == l
  {
    hide Ok, Allocate, Given, Freed, IsLive, SizeAt;
    var p := Given(l, a);
    var m := Allocate(l, a).0;
    AllocateKeepsOk(l, a);
    FreedKeepsOk(m, p);
    GivenIsNew(l, a);
    forall x: nat
      ensures IsLive(Freed(m, p), x) <==> IsLive(l, x)
      ensures IsLive(l, x) ==> SizeAt(Freed(m, p), x) == SizeAt(l, x)
    {
      AllocateAddsOne(l, a, x);
      FreedDropsOne(m, p, x);
    }
    LiveBlocksDetermine(Freed(m, p), l);
  }

  /** Freeing the first of two blocks, and then the second, gives the heap before both. */
  lemma BothComeBack(l: Layout, a: nat, b: nat)
    requires Ok(l) && BuffersFit(l, a, b)
    ensures var m := Allocate(l, a).0;
            Freed(Freed(Allocate(m, b).0, Given(l, a)), Given(m, b)) == l
  {
    hide Ok, Allocate, Given, Freed, IsLive, SizeAt;
    var m := Allocate(l, a).0;
    var p, q := Given(l, a), Given(m, b);
    var n := Allocate(m, b).0;
    AllocateKeepsOk(l, a);
    AllocateKeepsOk(m, b);
    FreedKeepsOk(n, p);
    FreedKeepsOk(Freed(n, p), q);
    GivenIsNew(l, a);
    GivenIsNew(m, b);
    forall x: nat
      ensures IsLive(Freed(Freed(n, p), q), x) <==> IsLive(l, x)
      ensures IsLive(l, x) ==> SizeAt(Freed(Freed(n, p), q), x) == SizeAt(l, x)
    {
      AllocateAddsOne(l, a, x);
      AllocateAddsOne(m, b, x);
      FreedDropsOne(n, p, x);
      FreedDropsOne(Freed(n, p), q, x);
    }
    LiveBlocksDetermine(Freed(Freed(n, p), q), l);
  }

  // ---- Loading ----

  /** Decodes an image with two buffers from the heap. The pixels stay in the second one, at ptr. */
  method LoadPixels(heap: Heap.KernelHeap, data: seq<Byte>, width: nat, height: nat)
    returns (ok: bool, pixels: array<Byte>, ptr: nat)
    requires heap.Valid()
    requires |data| < BitReader.MAX_SIZE && 0 < width <= Png.MAX_DIMENSION && 0 < height <= Png.MAX_DIMENSION
    modifies heap
    ensures heap.Valid() && fresh(pixels)
    ensures ok <==> BuffersFit(old(heap.layout), RawSize(width, height), PixelSize(width, height))
                    && exists p :: Png.Holds(data, width, height, p)
    ensures ok ==> Png.Holds(data, width, height, pixels[..])
    ensures ok ==> IsLive(heap.layout, ptr) && SizeAt(heap.layout, ptr) >= PixelSize(width, height)
    ensures ok ==> Freed(heap.layout, ptr) == old(heap.layout)
    ensures ok ==> Heap.Contents(heap.bytes, ptr, pixels.Length) == pixels[..]
    ensures !ok ==> heap.layout == old(heap.layout)
    ensures forall q: nat :: IsLive(old(heap.layout), q) ==>
              Heap.SameContents(heap.bytes, old(heap.bytes), q, SizeAt(old(heap.layout), q))
  {
    hide Ok, Allocate, Given, Freed, IsLive, SizeAt, Round, Png.Holds, RawSize, PixelSize, BlockAt, Heap.Contents;
    ghost var l := heap.layout;
    var a, b := RawSize(width, height), PixelSize(width, height);
    LimitNeverReached(width, height);
    RoundSmall(b);
    var raw := heap.Malloc(a);
    ptr := heap.Malloc(b);
    ghost var n := heap.layout;
    Heap.NullNotLive(l);
    ghost var m := Allocate(l, a).0;
    AllocateKeepsOk(l, a);
    Heap.GivenIff(l, a);
    Heap.GivenIff(m, b);
    if raw != Heap.NULL {
      OneComesBack(l, a);
      GivenIsNew(l, a);
    }
    if ptr != Heap.NULL {
      OneComesBack(m, b);
    }
    Heap.NullFreesNothing(l);
    Heap.NullFreesNothing(n);
    if BuffersFit(l, a, b) {
      BothComeBack(l, a, b);
      AllocateKeepsLive(m, b, raw);
      GivenIsNew(m, b);
      FreedDropsOne(n, raw, ptr);
    }
    ok, pixels := Png.DecodePixels(data, width, height, raw != Heap.NULL && ptr != Heap.NULL);
    if !ok {
      heap.Free(ptr);
      heap.Free(raw);
    } else {
      assert pixels.Length == b by { PixelCount(width, height); }
      heap.WritePayload(ptr, pixels[..]);
      forall q: nat | IsLive(l, q)
        ensures Heap.SameContents(heap.bytes, old(heap.bytes), q, SizeAt(l, q))
      {
        AllocateAddsOne(l, a, q);
        AllocateAddsOne(m, b, q);
      }
      heap.Free(raw);
    }
  }

  lemma PixelCount(width: nat, height: nat)
    ensures width * 3 * height == PixelSize(width, height)
  {
    MulAssoc(width, 3, height);
    MulAssoc(width, height, 3);
  }
}
