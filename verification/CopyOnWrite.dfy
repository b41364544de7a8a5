/** Copy-on-write address spaces: page tables, page faults and fork.

    Each entry of a page table is addressed by its space and page number; the table of slot
    s holds pages 512 s to 512 s + 511. The reference is a machine that copies every page at
    fork: `View` must always be what that machine would hold. */
module CopyOnWrite {
  import opened Bits
  import Pmem

  const SLOTS: nat := 2048
  const ENTRIES: nat := 512
  const PAGE_SIZE: nat := 4096
  /** Frames that page tables may be taken from. */
  const TABLES_START: nat := 0x1600
  const TABLES_END: nat := 0x4000

  type Page = seq<Byte>
  datatype Key = Key(space: nat, page: nat)
  datatype Slot = Slot(space: nat, slot: nat)
  datatype Pte = Pte(present: bool, rw: bool, user: bool, frame: nat)
  datatype Machine = Machine(frames: Pmem.Frames, content: seq<Page>, ptes: map<Key, Pte>, dirs: map<Slot, nat>)

  function SlotOf(k: Key): Slot { Slot(k.space, k.page / ENTRIES) }

  predicate Mapped(m: Machine, k: Key) {
    k in m.ptes && m.ptes[k].present && m.ptes[k].user
  }

  predicate Writable(m: Machine, k: Key) {
    Mapped(m, k) && m.ptes[k].rw
  }

  predicate Maps(m: Machine, k: Key, f: nat) {
    Mapped(m, k) && m.ptes[k].frame == f
  }

  /** The user entries that map frame f. */
  ghost function Refs(m: Machine, f: nat): set<Key> {
    set k | k in m.ptes && Maps(m, k, f)
  }

  ghost predicate KeyOk(m: Machine, k: Key)
    requires Pmem.Ok(m.frames) && Mapped(m, k)
  {
    var f := m.ptes[k].frame;
    && f < Pmem.FRAMES && |Refs(m, f)| <= m.frames.refcount[f]
    && (m.ptes[k].rw ==> Refs(m, f) == {k})
    && (forall j :: j in Refs(m, f) && j.space == k.space ==> j == k)
  }

  /** A frame has at least as many references as user entries; a writable entry is the only one of
      its frame; within a space no frame is mapped twice; page tables are never mapped. */
  ghost predicate Inv(m: Machine) {
    && Pmem.Ok(m.frames) && |m.content| == Pmem.FRAMES
    && (forall f :: 0 <= f < Pmem.FRAMES ==> |m.content[f]| == PAGE_SIZE)
    && (forall k :: Mapped(m, k) ==> KeyOk(m, k))
    && (forall s :: s in m.dirs ==>
                      m.dirs[s] < Pmem.FRAMES && m.frames.refcount[m.dirs[s]] > 0 && Refs(m, m.dirs[s]) == {})
    && (forall k :: k in m.ptes ==> SlotOf(k) in m.dirs && k.page < SLOTS * ENTRIES)
  }

  /** What each space sees: the contents of its user pages. */
  ghost function View(m: Machine): map<Key, Page>
    requires Inv(m)
  {
    map k | k in m.ptes && Mapped(m, k) :: m.content[m.ptes[k].frame]
  }

  // ---- The reference: every page private ----

  function AbstractWrite(a: map<Key, Page>, k: Key, offset: nat, v: Byte): map<Key, Page>
    requires offset < PAGE_SIZE && (k in a ==> |a[k]| == PAGE_SIZE)
  {
    var page := if k in a then a[k] else ZeroPage();
    a[k := page[offset := v]]
  }

  function ZeroPage(): (p: Page)
    ensures |p| == PAGE_SIZE
  {
    seq(PAGE_SIZE, _ => 0)
  }

  /** A copy of the first n pages of the parent, in a new space. */
  ghost function AbstractFork(a: map<Key, Page>, parent: nat, child: nat, n: nat): map<Key, Page> {
    a + map k | k in Copied(a, parent, child, n) :: a[Key(parent, k.page)]
  }

  ghost function Copied(a: map<Key, Page>, parent: nat, child: nat, n: nat): set<Key> {
    set k | k in a && k.space == parent && k.page < n :: Key(child, k.page)
  }

  // ---- Faults ----

  /** A private frame is made writable again; a shared one is copied first. */
  function CowFault(m: Machine, k: Key): Machine
    requires Pmem.Ok(m.frames) && |m.content| == Pmem.FRAMES
  {
    if !Mapped(m, k) || m.ptes[k].rw || m.ptes[k].frame >= Pmem.FRAMES then m
    else
      var f := m.ptes[k].frame;
      if m.frames.refcount[f] <= 1 then m.(ptes := m.ptes[k := m.ptes[k].(rw := true)])
      else
        match Pmem.Pick(m.frames, 1)
        case Nothing => m
        case Frame(g) =>
          Machine(Pmem.Deref(Pmem.Alloc(m.frames, 1), f), m.content[g := m.content[f]],
                  m.ptes[k := Pte(true, true, true, g)], m.dirs)
  }

  /** A new page table for the slot, if a frame for it is free; entries start out empty. */
  function AddTable(m: Machine, s: Slot): (r: (Machine, bool))
    requires Pmem.Ok(m.frames)
  {
    var f := Pmem.FirstRun(m.frames.taken, TABLES_START, TABLES_END, 1);
    if f + 1 > TABLES_END then (m, false)
    else (m.(frames := Pmem.Ref(m.frames, f), dirs := m.dirs[s := f]), true)
  }

  /** Demand-zero allocation. */
  function AllocatePage(m: Machine, k: Key): (r: (Machine, bool))
    requires Pmem.Ok(m.frames) && |m.content| == Pmem.FRAMES
  {
    match Pmem.Pick(m.frames, 1)
    case Nothing => (m, false)
    case Frame(g) =>
      Pmem.AllocTakesFreeFrames(m.frames, 1);
      var n := m.(frames := Pmem.Alloc(m.frames, 1));
      var (t, ok) := if SlotOf(k) in m.dirs then (n, true) else AddTable(n, SlotOf(k));
      if !ok then (n.(frames := Pmem.Deref(n.frames, g)), false)
      else (t.(ptes := t.ptes[k := Pte(true, true, true, g)], content := m.content[g := ZeroPage()]), true)
  }

  /** Pages of the user stack and the user heap, which grow on demand. */
  predicate Growable(page: nat) {
    0xBFFEF <= page < 0xBFFFE || 0x40000 <= page < 0x50000
  }

  /** The fault handler: the new machine, and whether the fault was handled. */
  function Fault(m: Machine, k: Key, present: bool, write: bool, user: bool): (Machine, bool)
    requires Pmem.Ok(m.frames) && |m.content| == Pmem.FRAMES
  {
    if !user then (m, false)
    else if !present && write && Growable(k.page) then AllocatePage(m, k)
    else if present && write && Mapped(m, k) && !m.ptes[k].rw then (CowFault(m, k), true)
    else (m, false)
  }

  datatype Outcome = Done | Stuck | Refused

  function Store(m: Machine, k: Key, offset: nat, v: Byte): Machine
    requires |m.content| == Pmem.FRAMES && Writable(m, k) && m.ptes[k].frame < Pmem.FRAMES
    requires offset < |m.content[m.ptes[k].frame]|
  {
    var f := m.ptes[k].frame;
    var page: Page := m.content[f];
    m.(content := m.content[f := page[offset := v]])
  }

  // ---- Faults keep what every space sees ----

  lemma SameRefs(m: Machine, n: Machine)
    requires forall k :: Mapped(n, k) <==> Mapped(m, k)
    requires forall k :: Mapped(m, k) ==> Mapped(n, k) && n.ptes[k].frame == m.ptes[k].frame
    ensures forall f: nat :: Refs(n, f) == Refs(m, f)
  {
    forall f: nat
      ensures Refs(n, f) == Refs(m, f)
    {
      assert forall k :: k in Refs(n, f) <==> Maps(n, k, f);
      assert forall k :: k in Refs(m, f) <==> Maps(m, k, f);
    }
  }

  lemma FreshFrameUnmapped(m: Machine, g: nat)
    requires Inv(m) && g < Pmem.FRAMES && m.frames.refcount[g] == 0
    ensures Refs(m, g) == {}
  {
    if k :| k in Refs(m, g) {
      assert KeyOk(m, k);
    }
  }

  lemma OneMemberAtMost<T>(s: set<T>, x: T)
    requires x in s && |s| <= 1
    ensures s == {x}
  {
    assert |s - {x}| == |s| - 1;
  }

  /** The only reference of a frame is the only entry that maps it, so it may become writable. */
  lemma MakeWritable(m: Machine, k: Key)
    requires Inv(m) && Mapped(m, k) && m.frames.refcount[m.ptes[k].frame] <= 1
    ensures var n := m.(ptes := m.ptes[k := m.ptes[k].(rw := true)]); Inv(n) && View(n) == View(m) && Writable(n, k)
  {
    hide Pmem.CountUsed;
    var n := m.(ptes := m.ptes[k := m.ptes[k].(rw := true)]);
    var f := m.ptes[k].frame;
    assert KeyOk(m, k);
    OneMemberAtMost(Refs(m, f), k);
    SameRefs(m, n);
    forall j | Mapped(n, j)
      ensures KeyOk(n, j)
    {
      assert KeyOk(m, j);
      if m.ptes[j].frame == f {
        assert j in Refs(m, f);
      }
    }
    assert View(n) == View(m);
  }

  /** One frame more: g had no references and now has one. */
  lemma AllocOne(m: Pmem.Frames)
    requires Pmem.Ok(m) && Pmem.Pick(m, 1).Frame?
    ensures var g, n := Pmem.Pick(m, 1).frame, Pmem.Alloc(m, 1);
            && Pmem.Ok(n) && g < Pmem.FRAMES && m.refcount[g] == 0 && n.refcount[g] == 1 && !m.taken[g]
            && forall f :: 0 <= f < Pmem.FRAMES && f != g ==> n.refcount[f] == m.refcount[f]
  {
    hide Pmem.Pick, Pmem.Alloc, Pmem.CountUsed;
    Pmem.AllocTakesFreeFrames(m, 1);
  }

  lemma DerefOne(m: Pmem.Frames, f: nat)
    requires Pmem.Ok(m) && f < Pmem.FRAMES && m.refcount[f] > 0
    ensures var n := Pmem.Deref(m, f);
            && Pmem.Ok(n) && n.refcount[f] == m.refcount[f] - 1
            && forall g :: 0 <= g < Pmem.FRAMES && g != f ==> n.refcount[g] == m.refcount[g]
  {
    hide Pmem.CountUsed;
    Pmem.DerefKeepsOk(m, f);
  }

  lemma RefOne(m: Pmem.Frames, f: nat)
    requires Pmem.Ok(m) && f < Pmem.FRAMES && m.refcount[f] < 255
    ensures var n := Pmem.Ref(m, f);
            && Pmem.Ok(n) && n.refcount[f] == m.refcount[f] + 1
            && forall g :: 0 <= g < Pmem.FRAMES && g != f ==> n.refcount[g] == m.refcount[g]
  {
    hide Pmem.CountUsed;
    Pmem.RefKeepsOk(m, f);
  }

  /** Entry k is moved to frame g, which nothing maps; frame f, if k mapped one, loses k. */
  lemma MovedRefs(m: Machine, n: Machine, k: Key, g: nat)
    requires n.ptes == m.ptes[k := Pte(true, true, true, g)] && Refs(m, g) == {}
    ensures Refs(n, g) == {k}
    ensures forall f: nat :: f != g ==> Refs(n, f) == Refs(m, f) - {k}
  {
    assert forall j, f :: j in Refs(n, f) <==> Maps(n, j, f);
    assert forall j, f :: j in Refs(m, f) <==> Maps(m, j, f);
    assert forall j, f :: j != k ==> (Maps(n, j, f) <==> Maps(m, j, f));
  }

  /** Entry k has been given frame g, which nothing held before, with this page in it; its old frame
      may have lost the reference of k. */
  ghost predicate GivenFrame(m: Machine, n: Machine, k: Key, g: nat, page: Page) {
    && Inv(m) && g < Pmem.FRAMES && m.frames.refcount[g] == 0 && |page| == PAGE_SIZE
    && n.ptes == m.ptes[k := Pte(true, true, true, g)] && n.content == m.content[g := page]
    && Pmem.Ok(n.frames) && n.frames.refcount[g] >= 1 && k.page < SLOTS * ENTRIES
    && (forall f :: 0 <= f < Pmem.FRAMES && f != g ==>
                      n.frames.refcount[f] + (if Maps(m, k, f) then 1 else 0) >= m.frames.refcount[f])
    && (forall s :: s in m.dirs ==> s in n.dirs && n.dirs[s] == m.dirs[s]) && SlotOf(k) in n.dirs
    && (forall s :: s in n.dirs && s !in m.dirs ==>
                      n.dirs[s] < Pmem.FRAMES && n.frames.refcount[n.dirs[s]] > 0 && n.dirs[s] != g
                      && m.frames.refcount[n.dirs[s]] == 0)
  }

  lemma GivenKeyOk(m: Machine, n: Machine, k: Key, g: nat, page: Page, j: Key)
    requires GivenFrame(m, n, k, g, page) && Mapped(n, j)
    ensures KeyOk(n, j)
  {
    hide Pmem.CountUsed, SlotOf;
    FreshFrameUnmapped(m, g);
    MovedRefs(m, n, k, g);
    if j != k {
      assert KeyOk(m, j);
      var f := m.ptes[j].frame;
      assert j in Refs(m, f);
      if Maps(m, k, f) {
        assert k in Refs(m, f);
        assert |Refs(m, f) - {k}| == |Refs(m, f)| - 1;
      } else {
        assert Refs(m, f) - {k} == Refs(m, f);
      }
    }
  }

  lemma GivenDirOk(m: Machine, n: Machine, k: Key, g: nat, page: Page, s: Slot)
    requires GivenFrame(m, n, k, g, page) && s in n.dirs
    ensures n.dirs[s] < Pmem.FRAMES && n.frames.refcount[n.dirs[s]] > 0 && Refs(n, n.dirs[s]) == {}
  {
    hide Pmem.CountUsed, SlotOf, KeyOk;
    FreshFrameUnmapped(m, g);
    MovedRefs(m, n, k, g);
    if s in m.dirs {
      assert k !in Refs(m, m.dirs[s]);
    } else {
      FreshFrameUnmapped(m, n.dirs[s]);
    }
  }

  /** Giving entry k a frame of its own keeps the invariant, and the other entries see what they saw. */
  lemma PrivateFrame(m: Machine, n: Machine, k: Key, g: nat, page: Page)
    requires GivenFrame(m, n, k, g, page)
    ensures Inv(n) && View(n) == View(m)[k := page] && Writable(n, k)
  {
    hide Pmem.CountUsed, KeyOk, Refs;
    FreshFrameUnmapped(m, g);
    forall j | Mapped(n, j)
      ensures KeyOk(n, j)
    {
      GivenKeyOk(m, n, k, g, page, j);
    }
    forall s | s in n.dirs
      ensures n.dirs[s] < Pmem.FRAMES && n.frames.refcount[n.dirs[s]] > 0 && Refs(n, n.dirs[s]) == {}
    {
      GivenDirOk(m, n, k, g, page, s);
    }
    assert Inv(n);
    GivenView(m, n, k, g, page);
  }

  lemma GivenView(m: Machine, n: Machine, k: Key, g: nat, page: Page)
    requires GivenFrame(m, n, k, g, page) && Inv(n)
    ensures View(n) == View(m)[k := page]
  {
    hide Pmem.Ok, KeyOk, Refs, View;
    assert Inv(m);
    var a, b := View(n), View(m)[k := page];
    forall j
      ensures j in a <==> j in b
      ensures j in a ==> a[j] == b[j]
    {
      GivenViewAt(m, n, k, g, page, j);
    }
  }

  lemma GivenViewAt(m: Machine, n: Machine, k: Key, g: nat, page: Page, j: Key)
    requires GivenFrame(m, n, k, g, page) && Inv(n)
    ensures j in View(n) <==> j in View(m) || j == k
    ensures j in View(n) ==> View(n)[j] == if j == k then page else View(m)[j]
  {
    hide Pmem.CountUsed, Refs;
    if j != k && Mapped(m, j) {
      assert KeyOk(m, j);
      FreshFrameUnmapped(m, g);
      InRefs(m, j);
    }
  }

  lemma InRefs(m: Machine, j: Key)
    requires Mapped(m, j)
    ensures j in Refs(m, m.ptes[j].frame)
  {
  }

  /** The copy-on-write fault changes nothing that any space sees. */
  lemma CowFaultKeepsView(m: Machine, k: Key)
    requires Inv(m)
    ensures var n := CowFault(m, k);
            && Inv(n) && View(n) == View(m)
            && (Mapped(m, k) && !(m.frames.refcount[m.ptes[k].frame] > 1 && Pmem.Pick(m.frames, 1).Nothing?) ==>
                Writable(n, k))
  {
    hide Pmem.CountUsed, Pmem.Pick, Pmem.Alloc, Pmem.Deref, Refs, View, KeyOk;
    if Mapped(m, k) && !m.ptes[k].rw {
      InvAt(m, k);
      if m.frames.refcount[m.ptes[k].frame] <= 1 {
        MakeWritable(m, k);
      } else if Pmem.Pick(m.frames, 1).Frame? {
        CowCopies(m, k);
      }
    }
  }

  /** What the invariant says of one user entry. */
  lemma InvAt(m: Machine, k: Key)
    requires Inv(m) && Mapped(m, k)
    ensures KeyOk(m, k) && m.ptes[k].frame < Pmem.FRAMES && |m.content[m.ptes[k].frame]| == PAGE_SIZE
    ensures SlotOf(k) in m.dirs && k.page < SLOTS * ENTRIES
    ensures k in View(m) && View(m)[k] == m.content[m.ptes[k].frame]
  {
    hide Pmem.CountUsed, Refs;
  }

  /** The branch that copies: the page gets a frame of its own with the same contents. */
  lemma CowCopies(m: Machine, k: Key)
    requires Inv(m) && Mapped(m, k) && !m.ptes[k].rw && m.ptes[k].frame < Pmem.FRAMES
    requires m.frames.refcount[m.ptes[k].frame] > 1 && Pmem.Pick(m.frames, 1).Frame?
    ensures var n := CowFault(m, k); Inv(n) && View(n) == View(m) && Writable(n, k)
  {
    hide Pmem.CountUsed, Pmem.Pick, Pmem.Alloc, Pmem.Deref, Refs, View, KeyOk;
    InvAt(m, k);
    var f := m.ptes[k].frame;
    var g := Pmem.Pick(m.frames, 1).frame;
    AllocOne(m.frames);
    DerefOne(Pmem.Alloc(m.frames, 1), f);
    var n := CowFault(m, k);
    assert GivenFrame(m, n, k, g, m.content[f]);
    PrivateFrame(m, n, k, g, m.content[f]);
    assert View(m)[k := m.content[f]] == View(m);
  }

  /** Two machines with the same mappings and contents show the same. */
  lemma ViewSame(m: Machine, n: Machine)
    requires Inv(m) && Inv(n) && m.content == n.content
    requires forall k :: Mapped(n, k) <==> Mapped(m, k)
    requires forall k :: Mapped(m, k) ==> Mapped(n, k) && n.ptes[k].frame == m.ptes[k].frame
    ensures View(n) == View(m)
  {
    hide Pmem.Ok, KeyOk, Refs, SlotOf;
  }

  lemma TableFrame(m: Pmem.Frames)
    requires Pmem.Ok(m)
    ensures var f := Pmem.FirstRun(m.taken, TABLES_START, TABLES_END, 1);
            f + 1 <= TABLES_END ==> f < Pmem.FRAMES && !m.taken[f] && m.refcount[f] == 0
  {
    hide Pmem.CountUsed;
  }

  /** A demand-zero page is zero and private; without a frame for it nothing changes. */
  lemma AllocatePageEffect(m: Machine, k: Key)
    requires Inv(m) && !Mapped(m, k) && k.page < SLOTS * ENTRIES
    ensures var (n, ok) := AllocatePage(m, k);
            && Inv(n)
            && (ok ==> View(n) == View(m)[k := ZeroPage()] && Writable(n, k))
            && (!ok ==> View(n) == View(m) && !Mapped(n, k))
  {
    hide Pmem.CountUsed, Pmem.Pick, Pmem.Alloc, Pmem.Deref, Pmem.Ref, Pmem.FirstRun, Refs, ZeroPage;
    if Pmem.Pick(m.frames, 1).Frame? {
      var g := Pmem.Pick(m.frames, 1).frame;
      AllocOne(m.frames);
      var a := Pmem.Alloc(m.frames, 1);
      var (n, ok) := AllocatePage(m, k);
      if ok {
        if SlotOf(k) !in m.dirs {
          TableFrame(a);
          RefOne(a, Pmem.FirstRun(a.taken, TABLES_START, TABLES_END, 1));
        }
        assert GivenFrame(m, n, k, g, ZeroPage());
        PrivateFrame(m, n, k, g, ZeroPage());
      } else {
        DerefOne(a, g);
        SameCounts(m, n);
      }
    }
  }

  lemma SameCounts(m: Machine, n: Machine)
    requires Inv(m) && n == m.(frames := n.frames) && Pmem.Ok(n.frames)
    requires forall f :: 0 <= f < Pmem.FRAMES ==> n.frames.refcount[f] == m.frames.refcount[f]
    ensures Inv(n) && View(n) == View(m)
  {
    hide Pmem.CountUsed;
    SameRefs(m, n);
    forall k | Mapped(n, k)
      ensures KeyOk(n, k)
    {
      assert KeyOk(m, k);
    }
    assert View(n) == View(m);
  }

  /** A fault never changes what a space sees, except that a growing page appears as zeros. */
  lemma FaultEffect(m: Machine, k: Key, present: bool)
    requires Inv(m) && (present <==> k in m.ptes && m.ptes[k].present)
    ensures var (n, handled) := Fault(m, k, present, true, true);
            && Inv(n)
            && View(n) == (if handled && !Mapped(m, k) then View(m)[k := ZeroPage()] else View(m))
            && (handled && !Mapped(m, k) ==> Writable(n, k))
            && (Mapped(m, k) ==> Mapped(n, k))
  {
    hide Pmem.Ok, CowFault, AllocatePage, ZeroPage, KeyOk, Refs;
    if !present && Growable(k.page) {
      AllocatePageEffect(m, k);
    } else {
      CowFaultKeepsView(m, k);
      assert Mapped(m, k) ==> k in View(m) && k in View(CowFault(m, k));
    }
  }

  // ---- Stores ----

  /** A user store: at once if the page is writable, otherwise after one fault; it is stuck if the
      fault found no free frame, and refused if the handler does not take the fault. */
  ghost function UserWrite(m: Machine, k: Key, offset: nat, v: Byte): (Machine, Outcome)
    requires Inv(m) && offset < PAGE_SIZE
  {
    hide Pmem.Ok, Fault, Refs;
    if Writable(m, k) then
      assert KeyOk(m, k);
      (Store(m, k, offset, v), Done)
    else
      var present := k in m.ptes && m.ptes[k].present;
      FaultEffect(m, k, present);
      var (n, handled) := Fault(m, k, present, true, true);
      if !handled then (n, Refused)
      else if Writable(n, k) then
        assert KeyOk(n, k);
        (Store(n, k, offset, v), Done)
      else (n, Stuck)
  }

  /** A store through a writable entry is seen by that entry alone. */
  lemma StoreEffect(m: Machine, k: Key, offset: nat, v: Byte)
    requires Inv(m) && Writable(m, k) && offset < PAGE_SIZE
    ensures m.ptes[k].frame < Pmem.FRAMES && |View(m)[k]| == PAGE_SIZE
    ensures Inv(Store(m, k, offset, v)) && View(Store(m, k, offset, v)) == AbstractWrite(View(m), k, offset, v)
  {
    hide Pmem.CountUsed, Refs;
    assert KeyOk(m, k);
    var n := Store(m, k, offset, v);
    SameRefs(m, n);
    forall j | Mapped(n, j)
      ensures KeyOk(n, j)
    {
      assert KeyOk(m, j);
    }
    StoreView(m, n, k, offset, v);
  }

  lemma StoredView(m: Machine, n: Machine, k: Key, offset: nat, v: Byte)
    requires Inv(m) && Inv(n) && Writable(m, k) && offset < PAGE_SIZE && m.ptes[k].frame < Pmem.FRAMES
    requires n == Store(m, k, offset, v) && k in View(m) && |View(m)[k]| == PAGE_SIZE
    requires forall j :: Mapped(m, j) ==>
               m.ptes[j].frame < Pmem.FRAMES && (j != k ==> m.ptes[j].frame != m.ptes[k].frame)
    ensures View(n) == AbstractWrite(View(m), k, offset, v)
  {
    hide Pmem.Ok, KeyOk, Refs, SlotOf;
  }

  lemma StoreView(m: Machine, n: Machine, k: Key, offset: nat, v: Byte)
    requires Inv(m) && Inv(n) && Writable(m, k) && offset < PAGE_SIZE && m.ptes[k].frame < Pmem.FRAMES
    requires n == Store(m, k, offset, v) && |View(m)[k]| == PAGE_SIZE
    ensures View(n) == AbstractWrite(View(m), k, offset, v)
  {
    hide Pmem.CountUsed, Refs;
    forall j | Mapped(m, j)
      ensures m.ptes[j].frame < Pmem.FRAMES && (j != k ==> m.ptes[j].frame != m.ptes[k].frame)
    {
      assert KeyOk(m, j) && KeyOk(m, k);
      InRefs(m, j);
    }
    StoredView(m, n, k, offset, v);
  }

  lemma ViewPages(m: Machine, k: Key)
    requires Inv(m) && k in View(m)
    ensures |View(m)[k]| == PAGE_SIZE
  {
    assert KeyOk(m, k);
  }

  /** A store that is done is the store of the reference machine; any other changes nothing that is
      seen. A store to a mapped page is never refused, and is stuck only for want of a free frame. */
  lemma WriteRefines(m: Machine, k: Key, offset: nat, v: Byte)
    requires Inv(m) && offset < PAGE_SIZE
    ensures var (n, o) := UserWrite(m, k, offset, v);
            && Inv(n) && (k in View(m) ==> |View(m)[k]| == PAGE_SIZE)
            && View(n) == (if o.Done? then AbstractWrite(View(m), k, offset, v) else View(m))
            && (Mapped(m, k) ==> o.Done? || (o.Stuck? && Pmem.Pick(m.frames, 1).Nothing?))
  {
    hide Pmem.Ok, Pmem.Pick, AllocatePage, CowFault, KeyOk, Refs, Store, AbstractWrite;
    if k in View(m) {
      ViewPages(m, k);
    }
    if Writable(m, k) {
      StoreEffect(m, k, offset, v);
    } else {
      var present := k in m.ptes && m.ptes[k].present;
      FaultEffect(m, k, present);
      CowFaultKeepsView(m, k);
      var (n, handled) := Fault(m, k, present, true, true);
      if handled && Writable(n, k) {
        StoreEffect(n, k, offset, v);
        ZeroThenWrite(View(m), k, offset, v);
      }
    }
  }

  lemma ZeroThenWrite(a: map<Key, Page>, k: Key, offset: nat, v: Byte)
    requires offset < PAGE_SIZE
    ensures k !in a ==> AbstractWrite(a[k := ZeroPage()], k, offset, v) == AbstractWrite(a, k, offset, v)
  {
    hide ZeroPage;
    if k !in a {
      var page: Page := ZeroPage();
      var p := page[offset := v];
      assert a[k := page][k := p] == a[k := p];
    }
  }
}
