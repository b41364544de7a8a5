/** Runs of allocations, frees and reallocations, and the one step that can break the heap. */
module HeapRuns {
  import opened Bits
  import opened HeapLayout

  type Size = n: nat | n < TWO_64

  datatype Op = MallocOp(size: Size) | FreeOp(ptr: nat) | ReallocOp(ptr: nat, size: Size)

  // ---- Moving a payload ----

  /** A reallocation moves the payload. */
  predicate Moves(l: Layout, ptr: nat, size: Size) {
    IsLive(l, ptr) && size != 0 && SizeAt(l, ptr) < size && Given(l, size) != 0
  }

  /** The old payload is larger than the block it is copied to. */
  predicate Overruns(l: Layout, op: Op)
    requires Ok(l)
  {
    && op.ReallocOp? && Moves(l, op.ptr, op.size)
    && (GivenIsNew(l, op.size); SizeAt(l, op.ptr) > SizeAt(Allocate(l, op.size).0, Given(l, op.size)))
  }

  lemma RoundWraps(size: Size)
    requires TWO_64 - 8 < size
    ensures Round(size) == 0
  {
  }

  lemma RoundWrapsToNothing()
    ensures Round(TWO_64 - 1) == 0
  {
  }

  lemma GivenSize(l: Layout, size: Size)
    requires Ok(l) && Given(l, size) != 0
    ensures IsLive(Allocate(l, size).0, Given(l, size))
    ensures var f, r := l[Allocate(l, size).1].size, Round(size);
            SizeAt(Allocate(l, size).0, Given(l, size)) == if f < r + HEADER + MIN_BLOCK then f else r
  {
    hide Offset, Round;
    GivenIsNew(l, size);
  }

  /** The size of the block that a request for nothing is given: the first free one, cut down to nothing if it
      can be cut. */
  function NothingSize(l: Layout): nat {
    var i := FirstFit(l, 0, 0);
    if i < |l| && l[i].size < HEADER + MIN_BLOCK then l[i].size else 0
  }

  /** A payload outgrows its new block exactly when rounding wrapped the request to nothing and the block
      found for that is smaller. */
  lemma OverrunsIff(l: Layout, ptr: nat, size: Size)
    requires Ok(l) && Moves(l, ptr, size)
    ensures Overruns(l, ReallocOp(ptr, size)) <==> size > TWO_64 - 8 && SizeAt(l, ptr) > NothingSize(l)
  {
    hide Offset, SizeAt, IsLive;
    GivenIsNew(l, size);
    RoundHoldsIff(size);
    GivenSize(l, size);
    if size > TWO_64 - 8 {
      RoundWraps(size);
    }
  }

  /** The first byte of the copy past the end of the block is the start of the next block's header, or lies
      outside the heap. */
  lemma OverrunHitsHeader(l: Layout, op: Op)
    requires Ok(l) && Overruns(l, op)
    ensures var t, i := Allocate(l, op.size).0, Allocate(l, op.size).1;
            && i < |t| && Given(l, op.size) + t[i].size == Addr(t, i + 1)
            && Given(l, op.size) + t[i].size < Given(l, op.size) + SizeAt(l, op.ptr)
            && (i + 1 == |t| ==> Addr(t, i + 1) == HEAP_START + HEAP_SIZE)
  {
    hide Offset, Round;
    GivenIsNew(l, op.size);
    AllocateKeepsOk(l, op.size);
    var (t, i) := Allocate(l, op.size);
    OffsetStep(t, i);
  }

  // ---- Steps ----

  /** What a call makes of the layout; calls on pointers that are not live do not occur. */
  function Effect(l: Layout, op: Op): Layout {
    match op
    case MallocOp(size) => Allocate(l, size).0
    case FreeOp(ptr) => Freed(l, ptr)
    case ReallocOp(ptr, size) =>
      if !IsLive(l, ptr) then Allocate(l, size).0
      else if size == 0 then Freed(l, ptr)
      else if SizeAt(l, ptr) >= size || Given(l, size) == 0 then l
      else Freed(Allocate(l, size).0, ptr)
  }

  /** The layout after a call; none once a header has been written over. */
  function Do(l: Layout, op: Op): (r: Option<Layout>)
    requires Ok(l)
    ensures r.Some? ==> Ok(r.value)
  {
    EffectKeepsOk(l, op);
    if Overruns(l, op) then None else Some(Effect(l, op))
  }

  function Run(l: Layout, ops: seq<Op>): (r: Option<Layout>)
    requires Ok(l)
    ensures r.Some? ==> Ok(r.value)
    decreases |ops|
  {
    if ops == [] then Some(l)
    else
      var n := Do(l, ops[0]);
      if n.None? then None else Run(n.value, ops[1..])
  }

  lemma EffectKeepsOk(l: Layout, op: Op)
    requires Ok(l)
    ensures Ok(Effect(l, op))
  {
    hide Ok, Allocate, Freed;
    match op
    case MallocOp(size) => AllocateKeepsOk(l, size);
    case FreeOp(ptr) => FreedKeepsOk(l, ptr);
    case ReallocOp(ptr, size) =>
      AllocateKeepsOk(l, size);
      FreedKeepsOk(l, ptr);
      FreedKeepsOk(Allocate(l, size).0, ptr);
  }

  // ---- Runs ----

  /** A run keeps the heap exactly when no step of it, in the state it meets, overruns. */
  lemma {:induction false} RunKeepsIff(l: Layout, ops: seq<Op>)
    requires Ok(l)
    ensures Run(l, ops).Some? <==> forall k :: 0 <= k < |ops| ==> SafeAt(l, ops, k)
    decreases |ops|
  {
    hide Ok, Overruns, Do;
    if ops != [] {
      assert ops[..0] == [] && Run(l, ops[..0]) == Some(l);
      FirstSafe(l, ops);
      var n := Do(l, ops[0]);
      if n.Some? {
        RunKeepsIff(n.value, ops[1..]);
        forall k | 1 <= k < |ops|
          ensures SafeAt(l, ops, k) <==> SafeAt(n.value, ops[1..], k - 1)
        {
          LaterSafe(l, ops, k);
        }
        if forall k :: 0 <= k < |ops| ==> SafeAt(l, ops, k) {
          forall k | 0 <= k < |ops| - 1
            ensures SafeAt(n.value, ops[1..], k)
          {
            assert SafeAt(l, ops, k + 1);
          }
        }
      } else {
        assert !SafeAt(l, ops, 0);
      }
    }
  }

  /** Step k does not overrun in the state that the steps before it leave. */
  predicate SafeAt(l: Layout, ops: seq<Op>, k: nat)
    requires Ok(l) && k < |ops|
  {
    var m := Run(l, ops[..k]);
    m.Some? ==> !Overruns(m.value, ops[k])
  }

  lemma FirstSafe(l: Layout, ops: seq<Op>)
    requires Ok(l) && ops != []
    ensures SafeAt(l, ops, 0) <==> Do(l, ops[0]).Some?
  {
    assert ops[..0] == [];
  }

  lemma LaterSafe(l: Layout, ops: seq<Op>, k: nat)
    requires Ok(l) && 1 <= k < |ops| && Do(l, ops[0]).Some?
    ensures SafeAt(l, ops, k) <==> SafeAt(Do(l, ops[0]).value, ops[1..], k - 1)
  {
    hide Ok, Overruns, Do;
    assert ops[..k][0] == ops[0] && ops[..k][1..] == ops[1..][..k - 1];
  }

  /** A request that rounding can hold never overruns. */
  lemma {:induction false} SmallRequestsKeep(l: Layout, ops: seq<Op>)
    requires Ok(l) && forall k :: 0 <= k < |ops| && ops[k].ReallocOp? ==> ops[k].size <= TWO_64 - 8
    ensures Run(l, ops).Some?
    decreases |ops|
  {
    hide Ok, Effect, Moves, Round;
    if ops != [] {
      var op := ops[0];
      if op.ReallocOp? && Moves(l, op.ptr, op.size) {
        OverrunsIff(l, op.ptr, op.size);
      }
      SmallRequestsKeep(Do(l, op).value, ops[1..]);
    }
  }

  /** After every run that no overrun has broken, the blocks fill the heap exactly, with no two free neighbours;
      and if nothing is in use then, the heap is one block again. */
  lemma EveryRunTiles(l: Layout, ops: seq<Op>)
    requires Ok(l)
    ensures Run(l, ops).Some? ==>
              var r := Run(l, ops).value;
              Ok(r) && ((forall k :: 0 <= k < |r| ==> !r[k].used) ==> r == INITIAL)
  {
    hide Ok, Run;
    var m := Run(l, ops);
    if m.Some? && forall k :: 0 <= k < |m.value| ==> !m.value[k].used {
      AllFreeIsInitial(m.value);
    }
  }

  predicate Frees(op: Op, ptr: nat) { (op.FreeOp? || op.ReallocOp?) && op.ptr == ptr }

  lemma EffectKeepsLive(l: Layout, op: Op, ptr: nat)
    requires Ok(l) && IsLive(l, ptr) && !Frees(op, ptr)
    ensures IsLive(Effect(l, op), ptr) && SizeAt(Effect(l, op), ptr) == SizeAt(l, ptr)
  {
    hide Ok, Allocate, Freed, IsLive, SizeAt, Given;
    match op
    case MallocOp(size) => AllocateKeepsLive(l, size, ptr);
    case FreeOp(other) => FreedKeepsLive(l, other, ptr);
    case ReallocOp(other, size) =>
      AllocateKeepsLive(l, size, ptr);
      AllocateKeepsOk(l, size);
      FreedKeepsLive(l, other, ptr);
      FreedKeepsLive(Allocate(l, size).0, other, ptr);
  }

  /** A live block stays where it is, with its size, over every run that no overrun has broken, as long as it is
      not itself freed or moved. */
  lemma {:induction false} LiveBlocksStay(l: Layout, ops: seq<Op>, ptr: nat)
    requires Ok(l) && IsLive(l, ptr) && forall j :: 0 <= j < |ops| ==> !Frees(ops[j], ptr)
    ensures Run(l, ops).Some? ==>
              IsLive(Run(l, ops).value, ptr) && SizeAt(Run(l, ops).value, ptr) == SizeAt(l, ptr)
    decreases |ops|
  {
    hide Ok, Effect, IsLive, SizeAt, Overruns, Frees;
    if ops != [] && Do(l, ops[0]).Some? {
      EffectKeepsLive(l, ops[0], ptr);
      LiveBlocksStay(Do(l, ops[0]).value, ops[1..], ptr);
    }
  }

  // ---- A run that breaks the heap ----

  lemma InitialOk()
    ensures Ok(INITIAL)
  {
    assert Offset(INITIAL, 1) == HEADER + (HEAP_SIZE - HEADER);
  }

  /** The heap after one allocation of eight bytes. */
  function OneSmall(): Layout { [Cell(8, true), Cell(HEAP_SIZE - 8 - 2 * HEADER, false)] }

  lemma OneSmallFacts(l: Layout)
    requires l == OneSmall()
    ensures Ok(l) && Effect(INITIAL, MallocOp(8)) == l
    ensures IsLive(l, HEAP_START + HEADER) && SizeAt(l, HEAP_START + HEADER) == 8
    ensures FirstFit(l, 0, 0) == 1 && NothingSize(l) == 0
  {
    assert Offset(l, 1) == HEADER + 8 && Offset(l, 2) == HEAP_SIZE;
    assert FirstFit(INITIAL, 8, 0) == 0;
    assert FirstFit(l, 0, 0) == FirstFit(l, 0, 1) == 1;
    assert BlockAt(l, HEAP_START + HEADER, 0) == 0;
  }

  lemma SmallOverruns(l: Layout, op: Op)
    requires l == OneSmall() && op == ReallocOp(HEAP_START + HEADER, TWO_64 - 1)
    ensures Ok(l) && Overruns(l, op)
  {
    OneSmallFacts(l);
    hide Offset, IsLive, SizeAt, OneSmall, NothingSize, Ok;
    RoundWraps(TWO_64 - 1);
    OverrunsIff(l, op.ptr, op.size);
  }

  /** One small allocation and a request to grow it to the largest number: the copy of eight bytes goes to a block
      of no size. */
  lemma GrowingCanOverrun()
    ensures Ok(INITIAL) && Run(INITIAL, [MallocOp(8), ReallocOp(HEAP_START + HEADER, TWO_64 - 1)]).None?
  {
    InitialOk();
    var l := OneSmall();
    OneSmallFacts(l);
    hide Ok, Overruns, Effect, OneSmall;
    var ops := [MallocOp(8), ReallocOp(HEAP_START + HEADER, TWO_64 - 1)];
    SmallOverruns(l, ops[1]);
    NoMove(INITIAL, ops[0]);
    assert Do(INITIAL, ops[0]) == Some(l);
    assert ops[1..] == [ops[1]];
    assert Do(l, ops[1..][0]).None?;
  }

  lemma NoMove(l: Layout, op: Op)
    requires Ok(l) && op.MallocOp?
    ensures !Overruns(l, op)
  {
  }
}
