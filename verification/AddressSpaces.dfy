/** Whole runs of stores and forks against the reference machine, and the in-place page tables. */
module AddressSpaces {
  import opened Bits
  import opened CopyOnWrite
  import opened Fork
  import Pmem

  // ---- Runs ----

  datatype Op = WriteOp(k: Key, offset: nat, v: Byte) | ForkOp(parent: nat, child: nat)
  /** What an operation got done: whether a store was done, how many pages a fork copied. */
  datatype Effect = Wrote(done: bool) | Forked(pages: nat)

  ghost predicate CanDo(m: Machine, op: Op) {
    match op
    case WriteOp(_, offset, _) => offset < PAGE_SIZE
    case ForkOp(parent, child) => CanFork(m, parent, child)
  }

  ghost function Do(m: Machine, op: Op): (Machine, Effect)
    requires Inv(m) && CanDo(m, op)
  {
    match op
    case WriteOp(k, offset, v) =>
      var (n, o) := UserWrite(m, k, offset, v);
      (n, Wrote(o.Done?))
    case ForkOp(parent, child) =>
      var (n, slots) := CloneSlots(m, parent, child, SLOTS);
      (n, Forked(slots * ENTRIES))
  }

  predicate WholePages(a: map<Key, Page>) {
    forall k :: k in a ==> |a[k]| == PAGE_SIZE
  }

  /** The same operation on the machine that copies pages at fork. */
  ghost function AbstractDo(a: map<Key, Page>, op: Op, e: Effect): map<Key, Page>
    requires WholePages(a)
  {
    match (op, e)
    case (WriteOp(k, offset, v), Wrote(true)) => if offset < PAGE_SIZE then AbstractWrite(a, k, offset, v) else a
    case (ForkOp(parent, child), Forked(pages)) => AbstractFork(a, parent, child, pages)
    case _ => a
  }

  ghost predicate CanRun(m: Machine, ops: seq<Op>)
    requires Inv(m)
    decreases |ops|
  {
    ops != [] ==> CanDo(m, ops[0]) && (DoRefines(m, ops[0]); CanRun(Do(m, ops[0]).0, ops[1..]))
  }

  ghost function Run(m: Machine, ops: seq<Op>): (r: (Machine, seq<Effect>))
    requires Inv(m) && CanRun(m, ops)
    ensures |r.1| == |ops|
    decreases |ops|
  {
    if ops == [] then (m, []) else
      DoRefines(m, ops[0]);
      var (n, e) := Do(m, ops[0]);
      var (r, es) := Run(n, ops[1..]);
      (r, [e] + es)
  }

  ghost function AbstractRun(a: map<Key, Page>, ops: seq<Op>, es: seq<Effect>): map<Key, Page>
    requires |es| == |ops|
    decreases |ops|
  {
    if ops == [] || !WholePages(a) then a else AbstractRun(AbstractDo(a, ops[0], es[0]), ops[1..], es[1..])
  }

  lemma ViewIsWhole(m: Machine)
    requires Inv(m)
    ensures WholePages(View(m))
  {
    hide Pmem.Ok, View;
    forall k | k in View(m)
      ensures |View(m)[k]| == PAGE_SIZE
    {
      ViewPages(m, k);
    }
  }

  lemma DoRefines(m: Machine, op: Op)
    requires Inv(m) && CanDo(m, op)
    ensures WholePages(View(m))
    ensures var (n, e) := Do(m, op); Inv(n) && View(n) == AbstractDo(View(m), op, e)
  {
    hide Inv, View, UserWrite, CloneSlots, AbstractWrite, AbstractFork, CanFork;
    ViewIsWhole(m);
    match op
    case WriteOp(k, offset, v) => WriteRefines(m, k, offset, v);
    case ForkOp(parent, child) => ForkRefines(m, parent, child);
  }

  /** After any run of stores and forks, in any spaces and any order, every space sees what it would
      had every page been copied at fork; and the sharing invariant still holds. */
  lemma {:induction false} RunIsDeepCopy(m: Machine, ops: seq<Op>)
    requires Inv(m) && CanRun(m, ops)
    ensures var (r, es) := Run(m, ops); Inv(r) && View(r) == AbstractRun(View(m), ops, es)
    decreases |ops|
  {
    hide Inv, View, Do, AbstractDo;
    if ops != [] {
      DoRefines(m, ops[0]);
      var (n, e) := Do(m, ops[0]);
      RunIsDeepCopy(n, ops[1..]);
      var (r, es) := Run(n, ops[1..]);
      assert ([e] + es)[1..] == es;
    }
  }

  /** No page table yet. */
  ghost predicate Start(m: Machine) {
    && Pmem.Ok(m.frames) && |m.content| == Pmem.FRAMES && m.ptes == map[] && m.dirs == map[]
    && forall f :: 0 <= f < Pmem.FRAMES ==> |m.content[f]| == PAGE_SIZE
  }

  lemma StartInv(m: Machine)
    requires Start(m)
    ensures Inv(m) && View(m) == map[]
  {
    hide Pmem.Ok, Pmem.CountUsed;
  }

  // ---- The tables, updated in place ----

  class PageTables {
    var frames: Pmem.Frames
    var content: seq<Page>
    var ptes: map<Key, Pte>
    var dirs: map<Slot, nat>

    ghost function Value(): Machine
      reads this
    {
      Machine(frames, content, ptes, dirs)
    }

    ghost predicate Valid()
      reads this
    {
      Inv(Value())
    }

    constructor (m: Machine)
      requires Inv(m)
      ensures Valid() && Value() == m
    {
      frames, content, ptes, dirs := m.frames, m.content, m.ptes, m.dirs;
    }

    /** Lets the faulting space write its page again, copying the page if others share it. */
    method HandleCowFault(k: Key)
      requires Valid()
      modifies this
      ensures Valid() && Value() == CowFault(old(Value()), k) && View(Value()) == old(View(Value()))
    {
      hide Pmem.CountUsed, Pmem.Pick, Pmem.Alloc, Pmem.Deref, View, Inv;
      ghost var m := Value();
      CowFaultKeepsView(m, k);
      TablesInRange(m);
      if k !in ptes || !ptes[k].present || !ptes[k].user || ptes[k].rw {
        return;
      }
      FrameInRange(m, k);
      var phys := ptes[k].frame;
      if frames.refcount[phys] <= 1 {
        ptes := ptes[k := ptes[k].(rw := true)];
        return;
      }
      match Pmem.Pick(frames, 1)
      case Nothing =>
      case Frame(g) =>
        AllocOne(frames);
        frames := Pmem.Alloc(frames, 1);
        content := content[g := content[phys]];
        frames := Pmem.Deref(frames, phys);
        ptes := ptes[k := Pte(true, true, true, g)];
    }

    /** A zeroed page of its own for the faulting space, with a page table if there is none yet. */
    method AllocateUserPage(k: Key) returns (ok: bool)
      requires Valid()
      modifies this
      ensures (Value(), ok) == AllocatePage(old(Value()), k)
    {
      hide Pmem.CountUsed, Pmem.Pick, Pmem.Alloc, Pmem.Deref, Pmem.FirstRun, Pmem.Ref, Inv, ZeroPage;
      TablesInRange(Value());
      match Pmem.Pick(frames, 1)
      case Nothing =>
        ok := false;
      case Frame(g) =>
        AllocOne(frames);
        frames := Pmem.Alloc(frames, 1);
        ok := true;
        if SlotOf(k) !in dirs {
          ok := NewTable(SlotOf(k));
        }
        if !ok {
          frames := Pmem.Deref(frames, g);
          return;
        }
        ptes := ptes[k := Pte(true, true, true, g)];
        content := content[g := ZeroPage()];
    }

    /** Decides by the error code; a handled fault is retried by the hardware. */
    method HandlePageFault(k: Key, present: bool, write: bool, user: bool) returns (handled: bool)
      requires Valid()
      modifies this
      ensures (Value(), handled) == Fault(old(Value()), k, present, write, user)
    {
      hide Pmem.Ok, Inv, CowFault, AllocatePage;
      TablesInRange(Value());
      if !user {
        return false;
      }
      if !present && write && Growable(k.page) {
        handled := AllocateUserPage(k);
        return;
      }
      if present && write && k in ptes && ptes[k].present && ptes[k].user && !ptes[k].rw {
        HandleCowFault(k);
        return true;
      }
      handled := false;
    }

    /** Shares every user page of the parent with a new space; stops where no page table can be had. */
    method CloneDirectory(parent: nat, child: nat) returns (slots: nat)
      requires Valid() && CanFork(Value(), parent, child)
      modifies this
      ensures (Value(), slots) == CloneSlots(old(Value()), parent, child, SLOTS)
      ensures Valid() && View(Value()) == AbstractFork(old(View(Value())), parent, child, slots * ENTRIES)
    {
      hide Inv, View, AddTable, CanFork, AbstractFork, ShareTable;
      ghost var m := Value();
      CloneStart(m, parent, child);
      ForkRefines(m, parent, child);
      slots := 0;
      while slots < SLOTS
        invariant slots <= SLOTS
        invariant CloneSlots(m, parent, child, slots) == (Value(), slots)
      {
        CloneRuns(m, parent, child, slots);
        if Slot(parent, slots) in dirs {
          var table := NewTable(Slot(child, slots));
          if !table {
            CloneStops(m, parent, child, slots, SLOTS);
            return;
          }
          CopyTable(parent, child, slots);
        }
        slots := slots + 1;
      }
    }

    method NewTable(s: Slot) returns (ok: bool)
      requires Pmem.Ok(frames)
      modifies this
      ensures (Value(), ok) == AddTable(old(Value()), s)
      ensures |frames.taken| == |frames.refcount|
    {
      var f := Pmem.FirstRun(frames.taken, TABLES_START, TABLES_END, 1);
      if f + 1 > TABLES_END {
        return false;
      }
      frames := Pmem.Ref(frames, f);
      dirs := dirs[s := f];
      ok := true;
    }

    method CopyTable(parent: nat, child: nat, slot: nat)
      requires |frames.taken| == |frames.refcount|
      modifies this
      ensures Value() == ShareTable(old(Value()), parent, child, slot * ENTRIES, ENTRIES)
    {
      ghost var t := Value();
      for i := 0 to ENTRIES
        invariant Value() == ShareTable(t, parent, child, slot * ENTRIES, i)
        invariant |frames.taken| == |frames.refcount|
      {
        var p, c := Key(parent, slot * ENTRIES + i), Key(child, slot * ENTRIES + i);
        if p in ptes && ptes[p].present {
          var pte := ptes[p];
          if pte.user {
            if pte.rw {
              pte := pte.(rw := false);
              ptes := ptes[p := pte];
            }
            frames := Pmem.Ref(frames, pte.frame);
          }
          ptes := ptes[c := pte];
        }
      }
    }
  }

  lemma TablesInRange(m: Machine)
    requires Inv(m)
    ensures Pmem.Ok(m.frames) && |m.content| == Pmem.FRAMES
  {
  }

  lemma FrameInRange(m: Machine, k: Key)
    requires Inv(m) && Mapped(m, k)
    ensures m.ptes[k].frame < Pmem.FRAMES && |m.frames.refcount| == |m.content| == Pmem.FRAMES
    ensures Pmem.Ok(m.frames) && m.frames.cursor < Pmem.FRAMES && |m.frames.taken| == Pmem.FRAMES
  {
    assert KeyOk(m, k);
  }

  lemma CloneStart(m: Machine, parent: nat, child: nat)
    requires CanFork(m, parent, child)
    ensures Inv(m) && Pmem.Ok(m.frames) && CloneSlots(m, parent, child, 0) == (m, 0)
  {
  }

  /** While all slots so far were cloned, the machine is a sound one. */
  lemma CloneRuns(m: Machine, parent: nat, child: nat, n: nat)
    requires CanFork(m, parent, child) && n < SLOTS && CloneSlots(m, parent, child, n).1 == n
    ensures var r := CloneSlots(m, parent, child, n).0; Inv(r) && Pmem.Ok(r.frames)
  {
    hide KeyOk, CloneSlots;
    var a := View(m);
    ForkSkipNothing(a, parent, child);
    assert Below(m, child, 0) && Mirror(m, parent, child);
    CloneSlotsEffect(a, m, parent, child, n);
  }

  lemma {:induction false} CloneStops(m: Machine, parent: nat, child: nat, done: nat, n: nat)
    requires Pmem.Ok(m.frames) && done < n && CloneSlots(m, parent, child, done + 1).1 == done
    ensures CloneSlots(m, parent, child, n) == CloneSlots(m, parent, child, done + 1)
    decreases n
  {
    hide Pmem.Ok, CloneSlot;
    if n > done + 1 {
      CloneStops(m, parent, child, done, n - 1);
    }
  }
}
