/** Physical frames: a bitmap of taken frames, a reference count per frame, and a search for
    free frames that goes on from where the last one ended.

    A frame may be taken without being counted (memory that is not there at all); a counted
    frame is always taken. */
module Pmem {

  /** 128 MiB of 4 KiB frames. */
  const FRAMES: nat := 32768
  const FRAME_SIZE: nat := 4096
  /** The kernel and its heap, from 1 MiB to 22 MiB. */
  const KERNEL_START: nat := 0x100
  const KERNEL_END: nat := 0x1600

  datatype Frames = Frames(taken: seq<bool>, refcount: seq<nat>, used: int, cursor: nat)

  function CountUsed(rc: seq<nat>): nat {
    if rc == [] then 0 else CountUsed(rc[..|rc| - 1]) + if rc[|rc| - 1] > 0 then 1 else 0
  }

  /** The counter of used frames is the number of frames with references. */
  predicate Ok(m: Frames) {
    && |m.taken| == |m.refcount| == FRAMES && m.cursor < FRAMES
    && (forall f :: 0 <= f < FRAMES ==> m.refcount[f] < 256)
    && (forall f :: 0 <= f < FRAMES && m.refcount[f] > 0 ==> m.taken[f])
    && m.used == CountUsed(m.refcount)
  }

  // ---- Reference counting; counters are 8 bits wide ----

  function Ref(m: Frames, f: nat): Frames
    requires |m.taken| == |m.refcount|
  {
    if f >= |m.refcount| then m
    else
      var first := m.refcount[f] == 0;
      m.(taken := if first then m.taken[f := true] else m.taken,
         used := if first then m.used + 1 else m.used,
         refcount := m.refcount[f := (m.refcount[f] + 1) % 256])
  }

  function Deref(m: Frames, f: nat): Frames
    requires |m.taken| == |m.refcount|
  {
    if f >= |m.refcount| || m.refcount[f] == 0 then m
    else
      var last := m.refcount[f] == 1;
      m.(taken := if last then m.taken[f := false] else m.taken,
         used := if last then m.used - 1 else m.used,
         refcount := m.refcount[f := m.refcount[f] - 1])
  }

  lemma {:induction false} CountUpdate(rc: seq<nat>, f: nat, v: nat)
    requires f < |rc|
    ensures CountUsed(rc[f := v]) == CountUsed(rc) + (if v > 0 then 1 else 0) - (if rc[f] > 0 then 1 else 0)
  {
    var n := |rc| - 1;
    if f == n {
      assert rc[f := v][..n] == rc[..n];
    } else {
      CountUpdate(rc[..n], f, v);
      assert rc[f := v][..n] == rc[..n][f := v];
    }
  }

  /** Taking a reference keeps the accounts exactly when the counter does not wrap. */
  lemma RefKeepsOk(m: Frames, f: nat)
    requires Ok(m) && f < FRAMES
    ensures Ok(Ref(m, f)) <==> m.refcount[f] < 255
  {
    hide CountUsed;
    CountUpdate(m.refcount, f, (m.refcount[f] + 1) % 256);
  }

  lemma DerefKeepsOk(m: Frames, f: nat)
    requires Ok(m)
    ensures Ok(Deref(m, f))
    ensures f < FRAMES && m.refcount[f] > 0 ==> (Deref(m, f).taken[f] <==> m.refcount[f] > 1)
  {
    hide CountUsed;
    if f < FRAMES && m.refcount[f] > 0 {
      CountUpdate(m.refcount, f, m.refcount[f] - 1);
    }
  }

  /** Dropping the reference just taken restores the frame tables. */
  lemma DerefUndoesRef(m: Frames, f: nat)
    requires Ok(m) && f < FRAMES && m.refcount[f] < 255 && (m.refcount[f] == 0 ==> !m.taken[f])
    ensures Deref(Ref(m, f), f) == m
  {
    hide CountUsed;
    var n := Deref(Ref(m, f), f);
    assert n.refcount == m.refcount && n.taken == m.taken;
  }

  // ---- Allocation ----

  predicate FreeRun(taken: seq<bool>, f: nat, n: nat) {
    f + n <= |taken| && forall i :: f <= i < f + n ==> !taken[i]
  }

  /** The first free run of n frames that starts at `from` or later and ends by `limit`. */
  function FirstRun(taken: seq<bool>, from: nat, limit: nat, n: nat): (r: nat)
    requires limit <= |taken|
    ensures r + n <= limit ==> from <= r && FreeRun(taken, r, n)
    ensures forall f :: from <= f < r && f + n <= limit ==> !FreeRun(taken, f, n)
    ensures r + n > limit ==> forall f :: from <= f && f + n <= limit ==> !FreeRun(taken, f, n)
    decreases limit - from
  {
    if from + n > limit || FreeRun(taken, from, n) then from else FirstRun(taken, from + 1, limit, n)
  }

  function RefRange(m: Frames, f: nat, n: nat): (r: Frames)
    requires |m.taken| == |m.refcount|
    ensures |r.taken| == |m.taken| && |r.refcount| == |m.refcount| && r.cursor == m.cursor
    decreases n
  {
    if n == 0 then m else Ref(RefRange(m, f, n - 1), f + n - 1)
  }

  datatype Found = Nothing | Frame(frame: nat)

  /** Where the next n frames come from: onward from the cursor first, then before it. */
  function Pick(m: Frames, n: nat): Found
    requires |m.taken| == FRAMES && m.cursor < FRAMES
  {
    if n == 0 || n > FRAMES then Nothing else
      var f := FirstRun(m.taken, m.cursor, FRAMES, n);
      if f + n <= FRAMES then Frame(f) else
        var g := FirstRun(m.taken, 0, m.cursor, n);
        if g + n <= m.cursor then Frame(g) else Nothing
  }

  function Alloc(m: Frames, n: nat): Frames
    requires |m.taken| == |m.refcount| == FRAMES && m.cursor < FRAMES
  {
    match Pick(m, n)
    case Nothing => m
    case Frame(f) => RefRange(m, f, n).(cursor := (f + n) % FRAMES)
  }

  lemma {:induction false} RefRangeEffect(m: Frames, f: nat, n: nat)
    requires Ok(m) && f + n <= FRAMES && forall i :: f <= i < f + n ==> m.refcount[i] == 0
    ensures Ok(RefRange(m, f, n))
    ensures forall i :: 0 <= i < FRAMES ==>
                          RefRange(m, f, n).refcount[i] == if f <= i < f + n then 1 else m.refcount[i]
    ensures forall i :: 0 <= i < FRAMES ==>
                          RefRange(m, f, n).taken[i] == (f <= i < f + n || m.taken[i])
    decreases n
  {
    hide CountUsed;
    if n > 0 {
      RefRangeEffect(m, f, n - 1);
      RefKeepsOk(RefRange(m, f, n - 1), f + n - 1);
    }
  }

  /** An allocation takes frames nobody holds, one reference each, and nothing else. */
  lemma AllocTakesFreeFrames(m: Frames, n: nat)
    requires Ok(m)
    ensures Ok(Alloc(m, n))
    ensures Pick(m, n).Frame? ==>
              var f := Pick(m, n).frame;
              && f + n <= FRAMES && FreeRun(m.taken, f, n)
              && (forall i :: f <= i < f + n ==> m.refcount[i] == 0)
              && (forall i :: 0 <= i < FRAMES ==> Alloc(m, n).refcount[i] == if f <= i < f + n then 1
                  else m.refcount[i])
              && (forall i :: 0 <= i < FRAMES ==> Alloc(m, n).taken[i] == (f <= i < f + n || m.taken[i]))
  {
    hide CountUsed, RefRange, FirstRun;
    if Pick(m, n).Frame? {
      RefRangeEffect(m, Pick(m, n).frame, n);
    }
  }

  /** It fails exactly when every free run long enough straddles the cursor. */
  lemma AllocFailsIff(m: Frames, n: nat)
    requires Ok(m) && 1 <= n <= FRAMES
    ensures Pick(m, n).Nothing? <==> forall f :: 0 <= f && FreeRun(m.taken, f, n) ==> f < m.cursor < f + n
  {
    hide CountUsed, FreeRun, RefRange;
    if Pick(m, n).Nothing? {
      forall f | 0 <= f && FreeRun(m.taken, f, n)
        ensures f < m.cursor < f + n
      {
        RunFits(m.taken, f, n);
      }
    }
  }

  lemma RunFits(taken: seq<bool>, f: nat, n: nat)
    requires FreeRun(taken, f, n)
    ensures f + n <= |taken|
  {
  }

  lemma SingleRuns(taken: seq<bool>)
    ensures forall f :: 0 <= f ==> (FreeRun(taken, f, 1) <==> f < |taken| && !taken[f])
  {
  }

  /** A single frame is found whenever one is free. */
  lemma OneFrameFailsIff(m: Frames)
    requires Ok(m)
    ensures Pick(m, 1).Nothing? <==> forall f :: 0 <= f < FRAMES ==> m.taken[f]
  {
    hide CountUsed, Pick, FreeRun;
    AllocFailsIff(m, 1);
    SingleRuns(m.taken);
  }

  function RefTimes(m: Frames, f: nat, n: nat): (r: Frames)
    requires |m.taken| == |m.refcount|
    ensures |r.taken| == |m.taken| && |r.refcount| == |m.refcount|
  {
    if n == 0 then m else Ref(RefTimes(m, f, n - 1), f)
  }

  lemma {:induction false} RefTimesEffect(m: Frames, f: nat, n: nat)
    requires Ok(m) && f < FRAMES && m.refcount[f] == 0 && n <= 255
    ensures Ok(RefTimes(m, f, n)) && RefTimes(m, f, n).refcount[f] == n
  {
    hide CountUsed;
    if n > 0 {
      RefTimesEffect(m, f, n - 1);
      RefKeepsOk(RefTimes(m, f, n - 1), f);
    }
  }

  /** From any sound state, 255 references to a frame are counted and one more is not. */
  lemma CounterHolds255(m: Frames, f: nat, limit: nat)
    requires Ok(m) && f < FRAMES && m.refcount[f] == 0 && limit == 255
    ensures Ok(RefTimes(m, f, limit)) && !Ok(RefTimes(m, f, limit + 1))
  {
    hide CountUsed, RefTimes;
    RefTimesEffect(m, f, limit);
    RefKeepsOk(RefTimes(m, f, limit), f);
    RefTimesNext(m, f, limit);
  }

  lemma RefTimesNext(m: Frames, f: nat, n: nat)
    requires |m.taken| == |m.refcount|
    ensures RefTimes(m, f, n + 1) == Ref(RefTimes(m, f, n), f)
  {
  }

  /** Only frames f and f + 1 are free, and the cursor has not passed them. */
  predicate TwoLeft(m: Frames, f: nat) {
    && Ok(m) && m.cursor <= f && f + 1 < FRAMES
    && forall i :: 0 <= i < FRAMES ==> (m.taken[i] <==> i != f && i != f + 1)
  }

  /** With two frames left, taking one and giving it back leaves the cursor between them: the pair is free and
      is not found. */
  lemma PairNotFound(m: Frames, f: nat)
    requires TwoLeft(m, f)
    ensures var n := Deref(Alloc(m, 1), f);
            Ok(n) && FreeRun(n.taken, f, 2) && Pick(n, 2).Nothing?
  {
    hide CountUsed, FirstRun, RefRange;
    OneFrameFailsIff(m);
    AllocTakesFreeFrames(m, 1);
    SingleRuns(m.taken);
    assert FreeRun(m.taken, f, 1);
    assert FirstRun(m.taken, m.cursor, FRAMES, 1) == f;
    var a := Alloc(m, 1);
    CursorAfter(m, f);
    DerefKeepsOk(a, f);
    var n := Deref(a, f);
    forall g | 0 <= g && FreeRun(n.taken, g, 2)
      ensures g < n.cursor < g + 2
    {
      assert !n.taken[g] && !n.taken[g + 1];
    }
    AllocFailsIff(n, 2);
  }

  lemma CursorAfter(m: Frames, f: nat)
    requires TwoLeft(m, f) && FirstRun(m.taken, m.cursor, FRAMES, 1) == f
    ensures Pick(m, 1) == Frame(f) && Alloc(m, 1).cursor == f + 1
  {
    hide CountUsed, FirstRun, RefRange;
  }

  // ---- The manager: tables updated in place ----

  class Manager {
    const bitmap: array<bool>
    const counts: array<nat>
    var used: int
    var cursor: nat

    ghost predicate Valid()
      reads this, bitmap, counts
    {
      bitmap.Length == counts.Length == FRAMES && Ok(Value())
    }

    /** The tables as a value. */
    ghost function Value(): Frames
      reads this, bitmap, counts
    {
      Frames(bitmap[..], counts[..], used, cursor)
    }

    /** Tables for the frames that the memory map offers, with those of the kernel and its heap held once; the
        rest is marked taken for good. */
    constructor (available: seq<bool>)
      requires |available| == FRAMES
      ensures Valid() && fresh(bitmap) && fresh(counts) && cursor == 0
      ensures forall i :: 0 <= i < FRAMES ==>
                bitmap[i] == (i < KERNEL_END || !available[i]) && counts[i] == (if i < KERNEL_END then 1 else 0)
    {
      bitmap := new bool[FRAMES](i requires 0 <= i < FRAMES => !available[i]);
      counts := new nat[FRAMES](_ => 0);
      used := 0;
      cursor := 0;
      new;
      NoneUsed(counts[..]);
      Reserve(KERNEL_START, KERNEL_END);
      Reserve(0, KERNEL_START);
    }

    /** Holds every frame of a range that nobody holds yet. */
    method Reserve(from: nat, to: nat)
      requires Valid() && from <= to <= FRAMES
      modifies this, bitmap, counts
      ensures Valid() && cursor == old(cursor)
      ensures forall i :: 0 <= i < FRAMES ==>
                && counts[i] == (if from <= i < to && old(counts[i]) == 0 then 1 else old(counts[i]))
                && bitmap[i] == (from <= i < to || old(bitmap[i]))
    {
      hide CountUsed;
      for f := from to to
        invariant Valid() && cursor == old(cursor)
        invariant forall i :: 0 <= i < FRAMES ==>
                    && counts[i] == (if from <= i < f && old(counts[i]) == 0 then 1 else old(counts[i]))
                    && bitmap[i] == (from <= i < f || old(bitmap[i]))
      {
        if counts[f] == 0 {
          RefKeepsOk(Value(), f);
          RefFrame(f);
        }
      }
    }

    method RefFrame(f: nat)
      requires bitmap.Length == counts.Length == FRAMES
      modifies this, bitmap, counts
      ensures Value() == Ref(old(Value()), f)
    {
      if f >= FRAMES {
        return;
      }
      if counts[f] == 0 {
        bitmap[f] := true;
        used := used + 1;
      }
      counts[f] := (counts[f] + 1) % 256;
    }

    method DerefFrame(f: nat)
      requires Valid()
      modifies this, bitmap, counts
      ensures Valid() && Value() == Deref(old(Value()), f)
    {
      ghost var before := Value();
      if f >= FRAMES || counts[f] == 0 {
        return;
      }
      counts[f] := counts[f] - 1;
      if counts[f] == 0 {
        bitmap[f] := false;
        used := used - 1;
      }
      assert Value() == Deref(before, f);
      DerefKeepsOk(before, f);
    }

    /** Whether the n frames from f on are all free. */
    method RunIsFree(f: nat, n: nat) returns (found: bool)
      requires bitmap.Length == FRAMES && f + n <= FRAMES
      ensures found <==> FreeRun(bitmap[..], f, n)
    {
      for i := 0 to n
        invariant forall k :: f <= k < f + i ==> !bitmap[k]
      {
        if bitmap[f + i] {
          return false;
        }
      }
      found := true;
    }

    /** The first free run between `start` and `limit`, or `limit` and beyond if there is none. */
    method Search(start: nat, limit: nat, n: nat) returns (frame: nat)
      requires bitmap.Length == FRAMES && limit <= FRAMES
      ensures frame == FirstRun(bitmap[..], start, limit, n)
    {
      frame := start;
      while frame + n <= limit
        invariant FirstRun(bitmap[..], start, limit, n) == FirstRun(bitmap[..], frame, limit, n)
      {
        var found := RunIsFree(frame, n);
        if found {
          return;
        }
        frame := frame + 1;
      }
    }

    method RefAll(f: nat, n: nat)
      requires bitmap.Length == counts.Length == FRAMES
      modifies this, bitmap, counts
      ensures Value() == RefRange(old(Value()), f, n)
    {
      ghost var before := Value();
      for i := 0 to n
        invariant Value() == RefRange(before, f, i)
      {
        RefFrame(f + i);
      }
    }

    /** Allocates n frames in a row; the address of the first one, or 0. */
    method Allocate(n: nat) returns (addr: nat)
      requires Valid() && bitmap[0]
      modifies this, bitmap, counts
      ensures Valid() && Value() == Alloc(old(Value()), n)
      ensures addr == match Pick(old(Value()), n) case Nothing => 0 case Frame(f) => f * FRAME_SIZE
      ensures addr != 0 <==> Pick(old(Value()), n).Frame?
    {
      hide CountUsed, FirstRun, RefRange, Ref;
      ghost var before := Value();
      AllocTakesFreeFrames(before, n);
      if n == 0 || n > FRAMES {
        return 0;
      }
      var frame := Search(cursor, FRAMES, n);
      if frame + n > FRAMES {
        frame := Search(0, cursor, n);
        if frame + n > cursor {
          return 0;
        }
      }
      addr := frame * FRAME_SIZE;
      RefAll(frame, n);
      cursor := (frame + n) % FRAMES;
    }

    /** Gives up one reference on each of n frames. */
    method Free(addr: nat, n: nat)
      requires Valid()
      modifies this, bitmap, counts
      ensures Valid() && Value() == DerefRange(old(Value()), addr / FRAME_SIZE, n)
    {
      var f := addr / FRAME_SIZE;
      ghost var before := Value();
      for i := 0 to n
        invariant Valid() && Value() == DerefRange(before, f, i)
      {
        DerefFrame(f + i);
      }
    }
  }

  /** A memory map that offers frames 6000 and 6001 only leads to such a state. */
  method BootWithTwoFrames() returns (m: Manager)
    ensures fresh(m) && m.Valid() && TwoLeft(m.Value(), 6000)
  {
    hide CountUsed;
    m := new Manager(seq(FRAMES, i => i == 6000 || i == 6001));
  }

  function DerefRange(m: Frames, f: nat, n: nat): (r: Frames)
    requires |m.taken| == |m.refcount|
    ensures |r.taken| == |m.taken| && |r.refcount| == |m.refcount|
    decreases n
  {
    if n == 0 then m else Deref(DerefRange(m, f, n - 1), f + n - 1)
  }

  /** Freeing what was just allocated gives back exactly the frames that were free. */
  lemma {:induction false} DerefRangeEffect(m: Frames, f: nat, n: nat)
    requires Ok(m) && f + n <= FRAMES && forall i :: f <= i < f + n ==> m.refcount[i] == 1
    ensures Ok(DerefRange(m, f, n))
    ensures forall i :: 0 <= i < FRAMES ==>
                          DerefRange(m, f, n).refcount[i] == if f <= i < f + n then 0 else m.refcount[i]
    ensures forall i :: 0 <= i < FRAMES ==>
                          DerefRange(m, f, n).taken[i] == (!(f <= i < f + n) && m.taken[i])
    decreases n
  {
    hide CountUsed;
    if n > 0 {
      DerefRangeEffect(m, f, n - 1);
      DerefKeepsOk(DerefRange(m, f, n - 1), f + n - 1);
    }
  }

  lemma FreeUndoesAlloc(m: Frames, n: nat)
    requires Ok(m) && Pick(m, n).Frame?
    ensures var r := DerefRange(Alloc(m, n), Pick(m, n).frame, n);
            r.taken == m.taken && r.refcount == m.refcount && r.used == m.used
  {
    hide CountUsed, RefRange, FirstRun, DerefRange;
    var f := Pick(m, n).frame;
    AllocTakesFreeFrames(m, n);
    DerefRangeEffect(Alloc(m, n), f, n);
  }

  lemma {:induction false} NoneUsed(rc: seq<nat>)
    requires forall i :: 0 <= i < |rc| ==> rc[i] == 0
    ensures CountUsed(rc) == 0
  {
    if rc != [] {
      NoneUsed(rc[..|rc| - 1]);
    }
  }
}
