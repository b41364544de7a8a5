/** Fork: the child's page tables are filled with read-only copies of the parent's entries. */
module Fork {
  import opened Bits
  import opened CopyOnWrite
  import Pmem

  /** One entry: a user page is shared read-only by both sides, anything else copied as it is. */
  function ShareEntry(m: Machine, p: Key, c: Key): Machine
    requires |m.frames.taken| == |m.frames.refcount|
  {
    if p !in m.ptes || !m.ptes[p].present then m
    else if m.ptes[p].user then
      var e := m.ptes[p].(rw := false);
      m.(frames := Pmem.Ref(m.frames, e.frame), ptes := m.ptes[p := e][c := e])
    else m.(ptes := m.ptes[c := m.ptes[p]])
  }

  function ShareTable(m: Machine, parent: nat, child: nat, first: nat, n: nat): (r: Machine)
    requires |m.frames.taken| == |m.frames.refcount|
    ensures |r.frames.taken| == |m.frames.taken| && |r.frames.refcount| == |m.frames.refcount|
    decreases n
  {
    if n == 0 then m
    else ShareEntry(ShareTable(m, parent, child, first, n - 1), Key(parent, first + n - 1), Key(child, first + n - 1))
  }

  ghost predicate Below(m: Machine, child: nat, n: nat) {
    forall k :: k in m.ptes && k.space == child ==> k.page < n
  }

  /** Every page of the child is the same page of the parent. */
  ghost predicate Mirror(m: Machine, parent: nat, child: nat) {
    forall k :: Mapped(m, k) && k.space == child ==> Maps(m, Key(parent, k.page), m.ptes[k].frame)
  }

  /** The counters of the pages still to be shared can take one reference more. */
  ghost predicate Room(m: Machine, parent: nat, n: nat)
    requires Pmem.Ok(m.frames)
  {
    forall k :: Mapped(m, k) && k.space == parent && k.page >= n ==>
                  m.ptes[k].frame < Pmem.FRAMES && m.frames.refcount[m.ptes[k].frame] < 255
  }

  /** What cloning keeps up after the first n pages. */
  ghost predicate Cloned(a: map<Key, Page>, m: Machine, parent: nat, child: nat, n: nat) {
    && Inv(m) && parent != child && View(m) == AbstractFork(a, parent, child, n)
    && Below(m, child, n) && Mirror(m, parent, child) && Room(m, parent, n)
  }

  lemma ForkAt(a: map<Key, Page>, parent: nat, child: nat, n: nat, k: Key)
    ensures k in AbstractFork(a, parent, child, n) <==>
            k in a || (k.space == child && k.page < n && Key(parent, k.page) in a)
    ensures k in AbstractFork(a, parent, child, n) ==>
              AbstractFork(a, parent, child, n)[k]
              == if k.space == child && k.page < n && Key(parent, k.page) in a then a[Key(parent, k.page)] else a[k]
  {
    var c := Copied(a, parent, child, n);
    if k.space == child && k.page < n && Key(parent, k.page) in a {
      assert Key(parent, k.page).page == k.page;
      assert k == Key(child, Key(parent, k.page).page);
      assert k in c;
    }
    if k in c {
      var j :| j in a && j.space == parent && j.page < n && k == Key(child, j.page);
      assert j == Key(parent, k.page);
    }
  }

  /** One page more. */
  lemma ForkStep(a: map<Key, Page>, parent: nat, child: nat, n: nat)
    ensures AbstractFork(a, parent, child, n + 1)
            == if Key(parent, n) in a then AbstractFork(a, parent, child, n)[Key(child, n) := a[Key(parent, n)]]
               else AbstractFork(a, parent, child, n)
  {
    hide AbstractFork;
    var x := AbstractFork(a, parent, child, n + 1);
    var y := if Key(parent, n) in a then AbstractFork(a, parent, child, n)[Key(child, n) := a[Key(parent, n)]]
             else AbstractFork(a, parent, child, n);
    forall k
      ensures k in x <==> k in y
      ensures k in x ==> x[k] == y[k]
    {
      ForkAt(a, parent, child, n, k);
      ForkAt(a, parent, child, n + 1, k);
    }
    assert x == y;
  }

  /** The entry c shares the frame of p, both read-only now. */
  lemma SharedRefs(m: Machine, n: Machine, p: Key, c: Key)
    requires |m.frames.taken| == |m.frames.refcount| && Mapped(m, p) && c !in m.ptes && n == ShareEntry(m, p, c)
    ensures Refs(n, m.ptes[p].frame) == Refs(m, m.ptes[p].frame) + {c}
    ensures forall f: nat :: f != m.ptes[p].frame ==> Refs(n, f) == Refs(m, f)
  {
    assert forall j, f :: j in Refs(n, f) <==> Maps(n, j, f);
    assert forall j, f :: j in Refs(m, f) <==> Maps(m, j, f);
    assert forall j, f :: j != c ==> (Maps(n, j, f) <==> Maps(m, j, f));
  }

  lemma SharedChildOk(m: Machine, n: Machine, p: Key, c: Key)
    requires Inv(m) && Mapped(m, p) && c !in m.ptes && n == ShareEntry(m, p, c) && Pmem.Ok(n.frames)
    requires m.ptes[p].frame < Pmem.FRAMES && m.frames.refcount[m.ptes[p].frame] < 255
    requires forall i :: i in Refs(m, m.ptes[p].frame) ==> i.space != c.space
    requires Mapped(n, c)
    ensures KeyOk(n, c)
  {
    hide Pmem.CountUsed, Pmem.Ref, Refs;
    RefOne(m.frames, m.ptes[p].frame);
    SharedRefs(m, n, p, c);
    assert KeyOk(m, p);
  }

  lemma SharedKeyOk(m: Machine, n: Machine, p: Key, c: Key, j: Key)
    requires Inv(m) && Mapped(m, p) && c !in m.ptes && n == ShareEntry(m, p, c) && Pmem.Ok(n.frames)
    requires m.ptes[p].frame < Pmem.FRAMES && m.frames.refcount[m.ptes[p].frame] < 255
    requires forall i :: i in Refs(m, m.ptes[p].frame) ==> i.space != c.space
    requires Mapped(n, j)
    ensures KeyOk(n, j)
  {
    if j == c {
      SharedChildOk(m, n, p, c);
    } else {
      hide Pmem.CountUsed, Pmem.Ref, Refs;
      RefOne(m.frames, m.ptes[p].frame);
      SharedRefs(m, n, p, c);
      assert KeyOk(m, p) && KeyOk(m, j);
      InRefs(m, p);
      InRefs(m, j);
    }
  }

  /** Sharing one user page gives the child the parent's page and changes nothing else that is seen. */
  lemma ShareUser(m: Machine, p: Key, c: Key)
    requires Inv(m) && Mapped(m, p) && c !in m.ptes && SlotOf(c) in m.dirs && c.page < SLOTS * ENTRIES
    requires m.ptes[p].frame < Pmem.FRAMES && m.frames.refcount[m.ptes[p].frame] < 255
    requires forall i :: i in Refs(m, m.ptes[p].frame) ==> i.space != c.space
    ensures var n := ShareEntry(m, p, c); Inv(n) && View(n) == View(m)[c := View(m)[p]]
  {
    hide Pmem.CountUsed, Pmem.Ref, KeyOk, Refs;
    var n := ShareEntry(m, p, c);
    var f := m.ptes[p].frame;
    RefOne(m.frames, f);
    SharedRefs(m, n, p, c);
    forall j | Mapped(n, j)
      ensures KeyOk(n, j)
    {
      SharedKeyOk(m, n, p, c, j);
    }
    forall s | s in n.dirs
      ensures Refs(n, n.dirs[s]) == {}
    {
      InRefs(m, p);
    }
    assert Inv(n);
    SharedView(m, n, p, c);
  }

  lemma SharedView(m: Machine, n: Machine, p: Key, c: Key)
    requires Inv(m) && Inv(n) && Mapped(m, p) && c !in m.ptes && n == ShareEntry(m, p, c)
    ensures View(n) == View(m)[c := View(m)[p]]
  {
    hide Pmem.Ok, Pmem.Ref, KeyOk, Refs, SlotOf;
  }

  /** An entry that is not a user page carries nothing over that a user could see. */
  lemma ShareOther(m: Machine, p: Key, c: Key)
    requires Inv(m) && !Mapped(m, p) && c !in m.ptes && SlotOf(c) in m.dirs && c.page < SLOTS * ENTRIES
    ensures var n := ShareEntry(m, p, c); Inv(n) && View(n) == View(m)
  {
    hide Pmem.CountUsed, Refs, View;
    var n := ShareEntry(m, p, c);
    SameRefs(m, n);
    forall j | Mapped(n, j)
      ensures KeyOk(n, j)
    {
      assert KeyOk(m, j);
    }
    ViewSame(m, n);
  }

  lemma NotYetInChild(m: Machine, parent: nat, child: nat, p: Key, i: Key)
    requires Inv(m) && Mapped(m, p) && p.space == parent && Key(child, p.page) !in m.ptes && Mirror(m, parent, child)
    requires i in Refs(m, m.ptes[p].frame)
    ensures i.space != child
  {
    hide Pmem.Ok;
    assert KeyOk(m, p);
    var q := Key(parent, i.page);
    if Maps(m, q, m.ptes[p].frame) {
      InRefs(m, q);
    }
    assert i.space == child ==> i == Key(child, i.page);
  }

  lemma RoomStep(m: Machine, parent: nat, child: nat, n: nat)
    requires Inv(m) && parent != child && Room(m, parent, n) && Key(child, n) !in m.ptes
    ensures var r := ShareEntry(m, Key(parent, n), Key(child, n)); Pmem.Ok(r.frames) && Room(r, parent, n + 1)
  {
    hide Pmem.CountUsed, Pmem.Ref, Refs;
    var p := Key(parent, n);
    var r := ShareEntry(m, p, Key(child, n));
    if Mapped(m, p) {
      var f := m.ptes[p].frame;
      RefOne(m.frames, f);
      forall k | Mapped(r, k) && k.space == parent && k.page >= n + 1
        ensures r.ptes[k].frame < Pmem.FRAMES && r.frames.refcount[r.ptes[k].frame] < 255
      {
        assert Mapped(m, k) && KeyOk(m, k);
        InRefs(m, k);
        InRefs(m, p);
      }
    }
  }

  lemma MirrorStep(m: Machine, parent: nat, child: nat, n: nat)
    requires |m.frames.taken| == |m.frames.refcount|
    requires parent != child && Mirror(m, parent, child) && Below(m, child, n)
    ensures var r := ShareEntry(m, Key(parent, n), Key(child, n)); Mirror(r, parent, child) && Below(r, child, n + 1)
  {
    hide Pmem.Ref;
    var p, c := Key(parent, n), Key(child, n);
    var r := ShareEntry(m, p, c);
    forall k | Mapped(r, k) && k.space == child
      ensures Maps(r, Key(parent, k.page), r.ptes[k].frame)
    {
      if k != c {
        assert Mapped(m, k);
      }
    }
  }

  /** Cloning goes on by one page. */
  lemma CloneEntry(a: map<Key, Page>, m: Machine, parent: nat, child: nat, n: nat)
    requires Cloned(a, m, parent, child, n) && Slot(child, n / ENTRIES) in m.dirs && n < SLOTS * ENTRIES
    requires forall k :: k in a ==> k.space != child
    ensures Cloned(a, ShareEntry(m, Key(parent, n), Key(child, n)), parent, child, n + 1)
  {
    hide Pmem.Ref, AbstractFork, Refs, ShareEntry, Mirror, KeyOk;
    var p, c := Key(parent, n), Key(child, n);
    ForkStep(a, parent, child, n);
    ForkAt(a, parent, child, n, p);
    RoomStep(m, parent, child, n);
    MirrorStep(m, parent, child, n);
    assert Mapped(m, p) <==> p in View(m);
    if Mapped(m, p) {
      forall i | i in Refs(m, m.ptes[p].frame)
        ensures i.space != child
      {
        NotYetInChild(m, parent, child, p, i);
      }
      ShareUser(m, p, c);
    } else {
      ShareOther(m, p, c);
    }
  }

  lemma ClonedOk(a: map<Key, Page>, m: Machine, parent: nat, child: nat, n: nat)
    requires Cloned(a, m, parent, child, n)
    ensures Inv(m) && Pmem.Ok(m.frames) && |m.frames.taken| == |m.frames.refcount|
  {
  }

  lemma {:induction false} CloneTable(a: map<Key, Page>, m: Machine, parent: nat, child: nat, slot: nat, first: nat,
                                      n: nat)
    requires Cloned(a, m, parent, child, first) && first == slot * ENTRIES && n <= ENTRIES && slot < SLOTS
    requires Slot(child, slot) in m.dirs && forall k :: k in a ==> k.space != child
    ensures Cloned(a, ShareTable(m, parent, child, first, n), parent, child, first + n)
    ensures ShareTable(m, parent, child, first, n).dirs == m.dirs
    decreases n
  {
    hide Cloned, Pmem.Ok;
    ClonedOk(a, m, parent, child, first);
    if n > 0 {
      CloneTable(a, m, parent, child, slot, first, n - 1);
      DivUnique(first + n - 1, ENTRIES, slot, n - 1);
      CloneEntry(a, ShareTable(m, parent, child, first, n - 1), parent, child, first + n - 1);
    }
  }

  /** A new, empty page table is invisible. */
  lemma AddTableEffect(m: Machine, s: Slot)
    requires Inv(m)
    ensures var (n, ok) := AddTable(m, s);
            && Inv(n) && View(n) == View(m) && n.ptes == m.ptes && (ok ==> s in n.dirs)
            && (forall t :: t != s ==> (t in n.dirs <==> t in m.dirs))
            && forall f :: 0 <= f < Pmem.FRAMES && m.frames.refcount[f] > 0 ==>
                n.frames.refcount[f] == m.frames.refcount[f]
  {
    hide Pmem.CountUsed, Pmem.Ref, Pmem.FirstRun, View, Refs;
    var f := Pmem.FirstRun(m.frames.taken, TABLES_START, TABLES_END, 1);
    var (n, ok) := AddTable(m, s);
    if ok {
      TableFrame(m.frames);
      RefOne(m.frames, f);
      FreshFrameUnmapped(m, f);
      SameRefs(m, n);
      forall k | Mapped(n, k)
        ensures KeyOk(n, k)
      {
        assert KeyOk(m, k);
      }
      ViewSame(m, n);
    }
  }

  lemma CloneNewTable(a: map<Key, Page>, m: Machine, parent: nat, child: nat, n: nat, s: Slot)
    requires Cloned(a, m, parent, child, n)
    ensures Cloned(a, AddTable(m, s).0, parent, child, n)
  {
    hide Pmem.Ref, Pmem.FirstRun, AbstractFork, Refs, AddTable;
    AddTableEffect(m, s);
    var r := AddTable(m, s).0;
    forall k | Mapped(r, k) && k.space == parent && k.page >= n
      ensures r.ptes[k].frame < Pmem.FRAMES && r.frames.refcount[r.ptes[k].frame] < 255
    {
      assert Mapped(m, k) && KeyOk(m, k);
      InRefs(m, k);
      MemberMeansSize(Refs(m, m.ptes[k].frame), k);
    }
  }

  lemma MemberMeansSize<T>(s: set<T>, x: T)
    requires x in s
    ensures |s| > 0
  {
  }

  lemma ForkSkip(a: map<Key, Page>, parent: nat, child: nat, n: nat, n': nat)
    requires n <= n' && forall q :: n <= q < n' ==> Key(parent, q) !in a
    ensures AbstractFork(a, parent, child, n') == AbstractFork(a, parent, child, n)
  {
    hide AbstractFork;
    var x, y := AbstractFork(a, parent, child, n'), AbstractFork(a, parent, child, n);
    forall k
      ensures k in x <==> k in y
      ensures k in x ==> x[k] == y[k]
    {
      ForkAt(a, parent, child, n, k);
      ForkAt(a, parent, child, n', k);
    }
    assert x == y;
  }

  /** A slot without a table holds no pages. */
  lemma CloneNoTable(a: map<Key, Page>, m: Machine, parent: nat, child: nat, slot: nat, n: nat)
    requires Cloned(a, m, parent, child, n) && n == slot * ENTRIES && Slot(parent, slot) !in m.dirs
    ensures Cloned(a, m, parent, child, n + ENTRIES)
  {
    hide Pmem.Ok, AbstractFork, KeyOk;
    forall q | n <= q < n + ENTRIES
      ensures Key(parent, q) !in a
    {
      DivUnique(q, ENTRIES, slot, q - n);
      assert SlotOf(Key(parent, q)) == Slot(parent, slot);
      ForkAt(a, parent, child, n, Key(parent, q));
    }
    ForkSkip(a, parent, child, n, n + ENTRIES);
  }

  /** The first n slots; the second component is how many were cloned before a page table could not
      be had, n if all were. */
  function CloneSlots(m: Machine, parent: nat, child: nat, n: nat): (r: (Machine, nat))
    requires Pmem.Ok(m.frames)
    ensures r.1 <= n && |r.0.frames.taken| == |r.0.frames.refcount|
    decreases n, parent
  {
    if n == 0 then (m, 0) else
      var (r, done) := CloneSlots(m, parent, child, n - 1);
      if done < n - 1 then (r, done)
      else if Slot(parent, n - 1) !in r.dirs then (r, n)
      else
        CloneSlot(r, parent, child, n - 1)
  }

  /** One slot that has a table: a table for the child, then its entries. */
  function CloneSlot(m: Machine, parent: nat, child: nat, slot: nat): (r: (Machine, nat))
    requires |m.frames.taken| == |m.frames.refcount|
    ensures slot <= r.1 <= slot + 1 && |r.0.frames.taken| == |r.0.frames.refcount|
  {
    if !Pmem.Ok(m.frames) then (m, slot) else
      var (t, ok) := AddTable(m, Slot(child, slot));
      if !ok then (t, slot) else (ShareTable(t, parent, child, slot * ENTRIES, ENTRIES), slot + 1)
  }

  lemma CloneSlotEffect(a: map<Key, Page>, m: Machine, parent: nat, child: nat, slot: nat)
    requires Cloned(a, m, parent, child, slot * ENTRIES) && slot < SLOTS && forall k :: k in a ==> k.space != child
    ensures var (r, done) := CloneSlot(m, parent, child, slot); Cloned(a, r, parent, child, done * ENTRIES)
  {
    hide ShareTable, AddTable, Cloned, Pmem.Ok, View, KeyOk, Refs;
    ClonedOk(a, m, parent, child, slot * ENTRIES);
    CloneNewTable(a, m, parent, child, slot * ENTRIES, Slot(child, slot));
    AddTableEffect(m, Slot(child, slot));
    var (t, ok) := AddTable(m, Slot(child, slot));
    if ok {
      ClonedOk(a, t, parent, child, slot * ENTRIES);
      CloneTable(a, t, parent, child, slot, slot * ENTRIES, ENTRIES);
    }
  }

  lemma {:induction false} CloneSlotsEffect(a: map<Key, Page>, m: Machine, parent: nat, child: nat, n: nat)
    requires Cloned(a, m, parent, child, 0) && n <= SLOTS && forall k :: k in a ==> k.space != child
    ensures var (r, done) := CloneSlots(m, parent, child, n); Cloned(a, r, parent, child, done * ENTRIES)
  {
    hide Cloned, Pmem.Ok, CloneSlot;
    ClonedOk(a, m, parent, child, 0);
    if n > 0 {
      CloneSlotsEffect(a, m, parent, child, n - 1);
      var (r, done) := CloneSlots(m, parent, child, n - 1);
      if done == n - 1 {
        if Slot(parent, n - 1) !in r.dirs {
          CloneNoTable(a, r, parent, child, n - 1, (n - 1) * ENTRIES);
        } else {
          CloneSlotEffect(a, r, parent, child, n - 1);
        }
      }
    }
  }

  /** The child is a space without pages, and the parent's counters have room for one more sharer. */
  ghost predicate CanFork(m: Machine, parent: nat, child: nat) {
    && Inv(m) && parent != child && (forall k :: k in m.ptes ==> k.space != child) && Room(m, parent, 0)
  }

  /** A fork is a deep copy of the slots it got to, all of them unless page tables ran out; the parent
      and every other space see what they saw. */
  lemma ForkRefines(m: Machine, parent: nat, child: nat)
    requires CanFork(m, parent, child)
    ensures var (r, done) := CloneSlots(m, parent, child, SLOTS);
            Inv(r) && View(r) == AbstractFork(View(m), parent, child, done * ENTRIES)
  {
    hide Pmem.Ok, KeyOk, AbstractFork, CloneSlots;
    var a := View(m);
    ForkSkipNothing(a, parent, child);
    assert Below(m, child, 0) && Mirror(m, parent, child);
    assert Cloned(a, m, parent, child, 0);
    CloneSlotsEffect(a, m, parent, child, SLOTS);
  }

  lemma ForkSkipNothing(a: map<Key, Page>, parent: nat, child: nat)
    ensures AbstractFork(a, parent, child, 0) == a
  {
    assert Copied(a, parent, child, 0) == {};
  }

  /** After a complete fork the child sees exactly the parent's pages. */
  lemma CompleteForkIsCopy(m: Machine, parent: nat, child: nat, page: nat)
    requires CanFork(m, parent, child) && CloneSlots(m, parent, child, SLOTS).1 == SLOTS
    ensures var (r, done) := CloneSlots(m, parent, child, SLOTS);
            && Inv(r) && (Key(child, page) in View(r) <==> Key(parent, page) in View(m))
            && (Key(child, page) in View(r) ==> View(r)[Key(child, page)] == View(m)[Key(parent, page)])
  {
    hide Pmem.Ok, KeyOk, AbstractFork, CloneSlots;
    ForkRefines(m, parent, child);
    ForkAt(View(m), parent, child, SLOTS * ENTRIES, Key(child, page));
    if Key(parent, page) in View(m) {
      PageNumbers(m, Key(parent, page));
    }
    assert Key(child, page) !in View(m);
  }

  lemma PageNumbers(m: Machine, k: Key)
    requires Inv(m) && k in View(m)
    ensures k.page < SLOTS * ENTRIES
  {
  }
}
