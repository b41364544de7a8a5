/** Shared memory segments: creation by key, attachment records, removal put off until the last
    attachment goes. The frames of a segment are counted by the physical memory manager. */
module Shmem {
  import opened Bits
  import opened Lists
  import Pmem

  const SEGMENTS: nat := 16
  const RECORDS: nat := 64
  const MAX_PAGES: nat := 256
  const PAGE_SIZE: nat := 4096

  const EINVAL: int := -22
  const ENOMEM: int := -12
  const EEXIST: int := -17
  const ENOENT: int := -2
  const ENOSPC: int := -28

  datatype Segment = Segment(used: bool, removed: bool, attachments: nat, key: nat, size: nat, phys: seq<nat>)
  datatype Record = Record(used: bool, pid: nat, shmid: nat, address: nat)
  datatype State = State(frames: Pmem.Frames, segments: seq<Segment>, records: seq<Record>)

  const EMPTY: Segment := Segment(false, false, 0, 0, 0, [])

  /** Live attachment records of segment i. */
  function Count(rs: seq<Record>, i: nat): nat {
    if rs == [] then 0
    else Count(rs[..|rs| - 1], i) + if rs[|rs| - 1].used && rs[|rs| - 1].shmid == i then 1 else 0
  }

  /** The attachment counter is the number of live records, and every frame of the segment is held
      once by the segment and once by each attachment. */
  predicate SegmentOk(st: State, i: nat)
    requires i < |st.segments| && Pmem.Ok(st.frames)
  {
    var g := st.segments[i];
    if !g.used then g == EMPTY
    else
      && g.attachments == Count(st.records, i) && Distinct(g.phys)
      && |g.phys| <= MAX_PAGES
      && forall a :: 0 <= a < |g.phys| ==>
                       0 < g.phys[a] < Pmem.FRAMES && st.frames.refcount[g.phys[a]] == 1 + g.attachments
  }

  predicate Disjoint(a: seq<nat>, b: seq<nat>) {
    forall f :: f in a ==> f !in b
  }

  predicate Base(st: State) {
    && Pmem.Ok(st.frames) && st.frames.taken[0] && |st.segments| == SEGMENTS && |st.records| == RECORDS
    && (forall i :: 0 <= i < SEGMENTS ==> SegmentOk(st, i))
    && (forall i, j :: 0 <= i < j < SEGMENTS ==> Disjoint(st.segments[i].phys, st.segments[j].phys))
    && (forall r :: 0 <= r < RECORDS && st.records[r].used ==>
                      st.records[r].shmid < SEGMENTS && st.segments[st.records[r].shmid].used)
  }

  /** A removed segment is there only while something is attached. */
  predicate Inv(st: State) {
    Base(st) && forall i :: 0 <= i < SEGMENTS && st.segments[i].removed ==> st.segments[i].attachments > 0
  }

  // ---- References on whole segments ----

  function RefAll(m: Pmem.Frames, fs: seq<nat>): (r: Pmem.Frames)
    requires |m.taken| == |m.refcount|
    ensures |r.taken| == |m.taken| && |r.refcount| == |m.refcount|
  {
    if fs == [] then m else Pmem.Ref(RefAll(m, fs[..|fs| - 1]), fs[|fs| - 1])
  }

  function DerefAll(m: Pmem.Frames, fs: seq<nat>): (r: Pmem.Frames)
    requires |m.taken| == |m.refcount|
    ensures |r.taken| == |m.taken| && |r.refcount| == |m.refcount|
  {
    if fs == [] then m else Pmem.Deref(DerefAll(m, fs[..|fs| - 1]), fs[|fs| - 1])
  }

  lemma Snoc(fs: seq<nat>, init: seq<nat>, f: nat)
    requires fs != [] && Distinct(fs) && init == fs[..|fs| - 1] && f == fs[|fs| - 1]
    ensures f !in init && forall g :: g in fs <==> g in init || g == f
  {
    assert fs == init + [f];
  }

  lemma RefEffect(m: Pmem.Frames, f: nat)
    requires Pmem.Ok(m) && f < Pmem.FRAMES && 0 < m.refcount[f] < 255
    ensures Pmem.Ok(Pmem.Ref(m, f)) && Pmem.Ref(m, f).refcount == m.refcount[f := m.refcount[f] + 1]
    ensures Pmem.Ref(m, f).taken == m.taken
  {
    hide Pmem.CountUsed;
    Pmem.RefKeepsOk(m, f);
  }

  lemma DerefEffect(m: Pmem.Frames, f: nat)
    requires Pmem.Ok(m) && f < Pmem.FRAMES && 0 < m.refcount[f]
    ensures Pmem.Ok(Pmem.Deref(m, f)) && Pmem.Deref(m, f).refcount == m.refcount[f := m.refcount[f] - 1]
    ensures Pmem.Deref(m, f).taken == if m.refcount[f] == 1 then m.taken[f := false] else m.taken
  {
    hide Pmem.CountUsed;
    Pmem.DerefKeepsOk(m, f);
  }

  lemma {:induction false} RefAllEffect(m: Pmem.Frames, fs: seq<nat>)
    requires Pmem.Ok(m) && Distinct(fs) && forall a :: 0 <= a < |fs| ==>
             fs[a] < Pmem.FRAMES && 0 < m.refcount[fs[a]] < 255
    ensures Pmem.Ok(RefAll(m, fs))
    ensures forall f :: 0 <= f < Pmem.FRAMES ==> RefAll(m, fs).refcount[f] == m.refcount[f] + if f in fs then 1 else 0
    ensures RefAll(m, fs).taken == m.taken
  {
    hide Pmem.CountUsed, Pmem.Ref;
    if fs != [] {
      var init, f := fs[..|fs| - 1], fs[|fs| - 1];
      RefAllEffect(m, init);
      Snoc(fs, init, f);
      RefEffect(RefAll(m, init), f);
    }
  }

  lemma {:induction false} DerefAllEffect(m: Pmem.Frames, fs: seq<nat>)
    requires Pmem.Ok(m) && Distinct(fs) && forall a :: 0 <= a < |fs| ==> fs[a] < Pmem.FRAMES && 0 < m.refcount[fs[a]]
    ensures Pmem.Ok(DerefAll(m, fs))
    ensures forall f :: 0 <= f < Pmem.FRAMES ==> DerefAll(m, fs).refcount[f] == m.refcount[f] - if f in fs then 1 else 0
    ensures forall f :: 0 <= f < Pmem.FRAMES ==>
                          DerefAll(m, fs).taken[f] == (m.taken[f] && !(f in fs && m.refcount[f] == 1))
  {
    hide Pmem.CountUsed, Pmem.Deref;
    if fs != [] {
      var init, f := fs[..|fs| - 1], fs[|fs| - 1];
      DerefAllEffect(m, init);
      Snoc(fs, init, f);
      DerefEffect(DerefAll(m, init), f);
    }
  }

  /** Up to n frames, one at a time; fewer if memory runs out. */
  function AllocPages(m: Pmem.Frames, n: nat): (r: (Pmem.Frames, seq<nat>))
    requires |m.taken| == |m.refcount| == Pmem.FRAMES && m.cursor < Pmem.FRAMES
    ensures |r.1| <= n && |r.0.taken| == |r.0.refcount| == Pmem.FRAMES && r.0.cursor < Pmem.FRAMES
  {
    if n == 0 then (m, []) else
      var (p, fs) := AllocPages(m, n - 1);
      if |fs| < n - 1 then (p, fs) else
        match Pmem.Pick(p, 1)
        case Nothing => (p, fs)
        case Frame(f) => (Pmem.Alloc(p, 1), fs + [f])
  }

  /** New frames had no references and were free; nothing else changes. */
  lemma {:induction false} AllocPagesEffect(m: Pmem.Frames, n: nat)
    requires Pmem.Ok(m)
    ensures var (p, fs) := AllocPages(m, n);
            && Pmem.Ok(p) && Distinct(fs)
            && (forall a :: 0 <= a < |fs| ==> fs[a] < Pmem.FRAMES && m.refcount[fs[a]] == 0 && !m.taken[fs[a]])
            && (forall f :: 0 <= f < Pmem.FRAMES ==> p.refcount[f] == if f in fs then 1 else m.refcount[f])
            && (forall f :: 0 <= f < Pmem.FRAMES ==> p.taken[f] == (f in fs || m.taken[f]))
  {
    hide Pmem.CountUsed, Pmem.Pick, Pmem.Alloc;
    if n > 0 {
      AllocPagesEffect(m, n - 1);
      var (p, fs) := AllocPages(m, n - 1);
      Pmem.AllocTakesFreeFrames(p, 1);
    }
  }

  // ---- Operations ----

  /** Pages for a size, in 32-bit arithmetic. */
  function PagesFor(size: nat): nat { (size + PAGE_SIZE - 1) % TWO_32 / PAGE_SIZE }

  /** The pages hold the size exactly when rounding up does not wrap. */
  lemma PagesHoldSizeIff(size: nat)
    requires size < TWO_32
    ensures PagesFor(size) * PAGE_SIZE >= size <==> size <= TWO_32 - PAGE_SIZE
  {
  }

  /** The largest size is taken to need no page at all. */
  lemma LargestSizeNeedsNothing()
    ensures PagesFor(TWO_32 - 1) == 0
  {
  }

  function FindKey(gs: seq<Segment>, key: nat, i: nat): (r: nat)
    requires i <= |gs|
    ensures i <= r <= |gs|
    ensures r < |gs| ==> gs[r].used && !gs[r].removed && gs[r].key == key
    ensures forall j :: i <= j < r ==> !(gs[j].used && !gs[j].removed && gs[j].key == key)
    decreases |gs| - i
  {
    if i == |gs| || (gs[i].used && !gs[i].removed && gs[i].key == key) then i else FindKey(gs, key, i + 1)
  }

  function FindFree(gs: seq<Segment>, i: nat): (r: nat)
    requires i <= |gs|
    ensures i <= r <= |gs| && (r < |gs| ==> !gs[r].used) && forall j :: i <= j < r ==> gs[j].used
    decreases |gs| - i
  {
    if i == |gs| || !gs[i].used then i else FindFree(gs, i + 1)
  }

  function FindRecord(rs: seq<Record>, i: nat): (r: nat)
    requires i <= |rs|
    ensures i <= r <= |rs| && (r < |rs| ==> !rs[r].used) && forall j :: i <= j < r ==> rs[j].used
    decreases |rs| - i
  {
    if i == |rs| || !rs[i].used then i else FindRecord(rs, i + 1)
  }

  function FindAttached(rs: seq<Record>, pid: nat, address: nat, i: nat): (r: nat)
    requires i <= |rs|
    ensures i <= r <= |rs|
    ensures r < |rs| ==> rs[r].used && rs[r].pid == pid && rs[r].address == address
    ensures forall j :: i <= j < r ==> !(rs[j].used && rs[j].pid == pid && rs[j].address == address)
    decreases |rs| - i
  {
    if i == |rs| || (rs[i].used && rs[i].pid == pid && rs[i].address == address) then i
    else FindAttached(rs, pid, address, i + 1)
  }

  /** Frees the segment if nothing is attached. */
  function Release(st: State, i: nat): State
    requires |st.frames.taken| == |st.frames.refcount|
  {
    if i >= |st.segments| || !st.segments[i].used || st.segments[i].attachments != 0 then st
    else st.(frames := DerefAll(st.frames, st.segments[i].phys), segments := st.segments[i := EMPTY])
  }

  function Get(st: State, key: nat, size: nat, create: bool, exclusive: bool): (State, int)
    requires Inv(st)
  {
    if size == 0 then (st, EINVAL)
    else if PagesFor(size) > MAX_PAGES then (st, ENOMEM)
    else
      var k := if key == 0 then SEGMENTS else FindKey(st.segments, key, 0);
      if k < SEGMENTS then (st, if exclusive && create then EEXIST else k)
      else if !create && key != 0 then (st, ENOENT)
      else
        var i := FindFree(st.segments, 0);
        if i == SEGMENTS then (st, ENOSPC) else
          var (p, fs) := AllocPages(st.frames, PagesFor(size));
          var n := State(p, st.segments[i := Segment(true, false, 0, key, size, fs)], st.records);
          if |fs| < PagesFor(size) then (Release(n, i), ENOMEM) else (n, i)
  }

  /** Attaches at an address the caller's address space has room at; 0 when it cannot. */
  function Attach(st: State, pid: nat, shmid: int, address: nat): (State, nat)
    requires Inv(st)
  {
    if !(0 <= shmid < SEGMENTS) || !st.segments[shmid].used || st.segments[shmid].removed || address == 0 then (st, 0)
    else
      var r := FindRecord(st.records, 0);
      if r == RECORDS then (st, 0)
      else
        var g := st.segments[shmid];
        (State(RefAll(st.frames, g.phys), st.segments[shmid := g.(attachments := g.attachments + 1)],
               st.records[r := Record(true, pid, shmid, address)]), address)
  }

  function Detach(st: State, pid: nat, address: nat): (State, int)
    requires Inv(st)
  {
    var r := FindAttached(st.records, pid, address, 0);
    if address == 0 || r == RECORDS then (st, EINVAL)
    else
      var i := st.records[r].shmid;
      var g := st.segments[i];
      var n := State(DerefAll(st.frames, g.phys),
                     st.segments[i := g.(attachments := if g.attachments > 0 then g.attachments - 1 else 0)],
                     st.records[r := st.records[r].(used := false)]);
      (if g.removed then Release(n, i) else n, 0)
  }

  function Remove(st: State, shmid: int): (State, int)
    requires Inv(st)
  {
    if !(0 <= shmid < SEGMENTS) || !st.segments[shmid].used then (st, EINVAL)
    else
      var n := st.(segments := st.segments[shmid := st.segments[shmid].(removed := true)]);
      (Release(n, shmid), 0)
  }

  // ---- Every operation keeps the accounts ----

  lemma {:induction false} CountUpdate(rs: seq<Record>, r: nat, e: Record, i: nat)
    requires r < |rs|
    ensures Count(rs[r := e], i) == Count(rs, i) + (if e.used && e.shmid == i then 1 else 0)
                                    - (if rs[r].used && rs[r].shmid == i then 1 else 0)
  {
    var n := |rs| - 1;
    if r == n {
      assert rs[r := e][..n] == rs[..n];
    } else {
      CountUpdate(rs[..n], r, e, i);
      assert rs[r := e][..n] == rs[..n][r := e];
    }
  }

  lemma {:induction false} CountBound(rs: seq<Record>, i: nat)
    ensures Count(rs, i) <= |rs|
  {
    if rs != [] {
      CountBound(rs[..|rs| - 1], i);
    }
  }

  lemma {:induction false} CountNone(rs: seq<Record>, i: nat)
    requires forall r :: 0 <= r < |rs| && rs[r].used ==> rs[r].shmid != i
    ensures Count(rs, i) == 0
  {
    if rs != [] {
      CountNone(rs[..|rs| - 1], i);
    }
  }

  /** No record left means no record of this segment is live. */
  lemma {:induction false} CountZero(rs: seq<Record>, i: nat, r: nat)
    requires Count(rs, i) == 0 && r < |rs|
    ensures !(rs[r].used && rs[r].shmid == i)
  {
    var n := |rs| - 1;
    if r < n {
      CountZero(rs[..n], i, r);
    }
  }

  /** Releasing a segment nobody is attached to frees exactly its frames. */
  lemma ReleaseEffect(st: State, i: nat)
    requires Base(st) && i < SEGMENTS
    ensures Base(Release(st, i))
    ensures var n := Release(st, i);
            && (forall j :: 0 <= j < SEGMENTS && j != i ==> n.segments[j] == st.segments[j])
            && (st.segments[i].used && st.segments[i].attachments == 0 ==>
                  && n.segments[i] == EMPTY
                  && forall f :: 0 <= f < Pmem.FRAMES ==>
                      n.frames.taken[f] == (st.frames.taken[f] && f !in st.segments[i].phys))
  {
    hide Pmem.CountUsed, Distinct, DerefAll;
    var g := st.segments[i];
    if g.used && g.attachments == 0 {
      assert SegmentOk(st, i);
      DerefAllEffect(st.frames, g.phys);
      var n := Release(st, i);
      forall j | 0 <= j < SEGMENTS
        ensures SegmentOk(n, j)
      {
        assert SegmentOk(st, j);
        if j != i {
          DisjointEither(st, i, j);
        }
      }
      forall r | 0 <= r < RECORDS && n.records[r].used
        ensures n.segments[n.records[r].shmid].used
      {
        CountZero(st.records, i, r);
      }
    }
  }

  lemma DisjointEither(st: State, i: nat, j: nat)
    requires Base(st) && i < SEGMENTS && j < SEGMENTS && i != j
    ensures Disjoint(st.segments[i].phys, st.segments[j].phys) && Disjoint(st.segments[j].phys, st.segments[i].phys)
  {
    hide Pmem.Ok, SegmentOk;
    if i < j {
      assert Disjoint(st.segments[i].phys, st.segments[j].phys);
    } else {
      assert Disjoint(st.segments[j].phys, st.segments[i].phys);
    }
  }

  lemma AttachKeepsInv(st: State, pid: nat, shmid: int, address: nat)
    requires Inv(st)
    ensures Inv(Attach(st, pid, shmid, address).0)
  {
    hide Pmem.CountUsed, Distinct, RefAll, Count;
    var (n, a) := Attach(st, pid, shmid, address);
    if n != st {
      var g, r := st.segments[shmid], FindRecord(st.records, 0);
      assert SegmentOk(st, shmid);
      CountBound(st.records, shmid);
      RefAllEffect(st.frames, g.phys);
      forall j | 0 <= j < SEGMENTS
        ensures SegmentOk(n, j)
      {
        assert SegmentOk(st, j);
        CountUpdate(st.records, r, Record(true, pid, shmid, address), j);
        if j != shmid {
          DisjointEither(st, shmid, j);
        }
      }
    }
  }

  /** The state between dropping an attachment and releasing a removed segment. */
  function Detached(st: State, r: nat): State
    requires Inv(st) && r < RECORDS && st.records[r].used
  {
    var i := st.records[r].shmid;
    var g := st.segments[i];
    State(DerefAll(st.frames, g.phys),
          st.segments[i := g.(attachments := if g.attachments > 0 then g.attachments - 1 else 0)],
          st.records[r := st.records[r].(used := false)])
  }

  lemma RecordCounted(st: State, r: nat)
    requires Base(st) && r < RECORDS && st.records[r].used
    ensures st.segments[st.records[r].shmid].attachments > 0
  {
    hide Pmem.Ok;
    var i := st.records[r].shmid;
    assert SegmentOk(st, i);
    if Count(st.records, i) == 0 {
      CountZero(st.records, i, r);
    }
  }

  lemma DetachedBase(st: State, r: nat)
    requires Inv(st) && r < RECORDS && st.records[r].used
    ensures Base(Detached(st, r))
    ensures Detached(st, r).frames.taken == st.frames.taken
  {
    hide Pmem.CountUsed, Distinct, DerefAll, Count;
    var i := st.records[r].shmid;
    var g, n := st.segments[i], Detached(st, r);
    assert SegmentOk(st, i);
    RecordCounted(st, r);
    DerefAllEffect(st.frames, g.phys);
    forall j | 0 <= j < SEGMENTS
      ensures SegmentOk(n, j)
    {
      assert SegmentOk(st, j);
      CountUpdate(st.records, r, st.records[r].(used := false), j);
      if j != i {
        DisjointEither(st, i, j);
      }
    }
    assert n.frames.taken == st.frames.taken;
  }

  /** A detach keeps the accounts, and frees frames exactly when it was the last one of a removed
      segment. */
  lemma DetachEffect(st: State, pid: nat, address: nat)
    requires Inv(st)
    ensures Inv(Detach(st, pid, address).0)
    ensures var (n, result) := Detach(st, pid, address);
            var r := FindAttached(st.records, pid, address, 0);
            && (result == 0 <==> address != 0 && r < RECORDS)
            && (result == 0 ==>
                  var i := st.records[r].shmid;
                  var g := st.segments[i];
                  && (n.segments[i] == EMPTY <==> g.removed && g.attachments == 1)
                  && forall f :: 0 <= f < Pmem.FRAMES ==>
                                   n.frames.taken[f] == (st.frames.taken[f] && !(f in g.phys && g.removed
                                       && g.attachments == 1)))
  {
    hide Pmem.Ok, SegmentOk, DerefAll;
    var r := FindAttached(st.records, pid, address, 0);
    if address != 0 && r < RECORDS {
      var i := st.records[r].shmid;
      RecordCounted(st, r);
      DetachedBase(st, r);
      ReleaseEffect(Detached(st, r), i);
    }
  }

  /** Removal at once when nothing is attached, otherwise put off. */
  lemma RemoveEffect(st: State, shmid: int)
    requires Inv(st)
    ensures Inv(Remove(st, shmid).0)
    ensures 0 <= shmid < SEGMENTS && st.segments[shmid].used ==>
              var n := Remove(st, shmid).0;
              && (n.segments[shmid] == EMPTY <==> st.segments[shmid].attachments == 0)
              && forall f :: 0 <= f < Pmem.FRAMES ==>
                               n.frames.taken[f] == (st.frames.taken[f] && !(f in st.segments[shmid].phys
                                   && st.segments[shmid].attachments == 0))
  {
    hide Pmem.Ok, DerefAll;
    if 0 <= shmid < SEGMENTS && st.segments[shmid].used {
      var n := st.(segments := st.segments[shmid := st.segments[shmid].(removed := true)]);
      forall j | 0 <= j < SEGMENTS
        ensures SegmentOk(n, j)
      {
        assert SegmentOk(st, j);
      }
      ReleaseEffect(n, shmid);
    }
  }

  /** A new segment in a free place, with frames nobody held. */
  lemma CreatedBase(st: State, i: nat, key: nat, size: nat, n: nat)
    requires Inv(st) && i < SEGMENTS && !st.segments[i].used && n <= MAX_PAGES
    ensures var (p, fs) := AllocPages(st.frames, n);
            Base(State(p, st.segments[i := Segment(true, false, 0, key, size, fs)], st.records))
  {
    hide Pmem.CountUsed, Distinct, AllocPages, Count;
    var (p, fs) := AllocPages(st.frames, n);
    AllocPagesEffect(st.frames, n);
    var s := State(p, st.segments[i := Segment(true, false, 0, key, size, fs)], st.records);
    CountNone(st.records, i);
    forall j | 0 <= j < SEGMENTS
      ensures SegmentOk(s, j)
    {
      assert SegmentOk(st, j);
    }
    forall j | 0 <= j < SEGMENTS && j != i
      ensures Disjoint(st.segments[j].phys, fs) && Disjoint(fs, st.segments[j].phys)
    {
      assert SegmentOk(st, j);
    }
  }

  /** Creating or finding a segment keeps the accounts; when memory runs out all frames come back. */
  lemma GetKeepsInv(st: State, key: nat, size: nat, create: bool, exclusive: bool)
    requires Inv(st)
    ensures Inv(Get(st, key, size, create, exclusive).0)
    ensures var (n, r) := Get(st, key, size, create, exclusive); r < 0 ==> n.frames.taken == st.frames.taken
    ensures var (n, r) := Get(st, key, size, create, exclusive);
            r >= 0 ==> r < SEGMENTS && n.segments[r].used && !n.segments[r].removed && n.segments[r].key == key
  {
    hide Pmem.CountUsed, SegmentOk, Disjoint, AllocPages, DerefAll, PagesFor;
    var i := FindFree(st.segments, 0);
    if i < SEGMENTS && PagesFor(size) <= MAX_PAGES {
      CreatedBase(st, i, key, size, PagesFor(size));
      var (p, fs) := AllocPages(st.frames, PagesFor(size));
      var s := State(p, st.segments[i := Segment(true, false, 0, key, size, fs)], st.records);
      ReleaseEffect(s, i);
      BackToFree(st, PagesFor(size), Release(s, i));
    }
  }

  lemma BackToFree(st: State, n: nat, r: State)
    requires Base(st) && Base(r)
    requires var (p, fs) := AllocPages(st.frames, n);
             && |p.taken| == Pmem.FRAMES
             && forall f :: 0 <= f < Pmem.FRAMES ==> r.frames.taken[f] == (p.taken[f] && f !in fs)
    ensures r.frames.taken == st.frames.taken
  {
    hide Pmem.CountUsed, AllocPages, SegmentOk, Disjoint;
    AllocPagesEffect(st.frames, n);
  }

  // ---- Runs ----

  datatype Op =
    | GetOp(key: nat, size: nat, create: bool, exclusive: bool)
    | AttachOp(pid: nat, shmid: int, address: nat)
    | DetachOp(pid: nat, address: nat)
    | RemoveOp(shmid: int)

  function Do(st: State, op: Op): (n: State)
    requires Inv(st)
    ensures Inv(n)
  {
    hide Inv;
    match op
    case GetOp(key, size, create, exclusive) =>
      GetKeepsInv(st, key, size, create, exclusive);
      Get(st, key, size, create, exclusive).0
    case AttachOp(pid, shmid, address) =>
      AttachKeepsInv(st, pid, shmid, address);
      Attach(st, pid, shmid, address).0
    case DetachOp(pid, address) =>
      DetachEffect(st, pid, address);
      Detach(st, pid, address).0
    case RemoveOp(shmid) =>
      RemoveEffect(st, shmid);
      Remove(st, shmid).0
  }

  function Run(st: State, ops: seq<Op>): (n: State)
    requires Inv(st)
    ensures Inv(n)
    decreases |ops|
  {
    hide Inv;
    if ops == [] then st else Run(Do(st, ops[0]), ops[1..])
  }

  /** In every state a run can reach: counters are record counts, every frame of a segment has one
      reference more than the segment has attachments, a removed segment has attachments, and the
      count of used frames is the number of frames with references. */
  lemma EveryRunKeepsAccounts(st: State, ops: seq<Op>, i: nat)
    requires Inv(st) && i < SEGMENTS
    ensures var n := Run(st, ops);
            && n.frames.used == Pmem.CountUsed(n.frames.refcount)
            && |n.segments| == SEGMENTS
            && (n.segments[i].used ==>
                  && n.segments[i].attachments == Count(n.records, i) <= RECORDS
                  && (n.segments[i].removed ==> n.segments[i].attachments > 0)
                  && forall f :: f in n.segments[i].phys ==>
                                   f < |n.frames.refcount| && n.frames.refcount[f] == 1 + n.segments[i].attachments)
  {
    var n := Run(st, ops);
    assert SegmentOk(n, i);
    CountBound(n.records, i);
  }

  /** No segment and no attachment. */
  predicate Start(st: State) {
    && Pmem.Ok(st.frames) && st.frames.taken[0] && |st.segments| == SEGMENTS && |st.records| == RECORDS
    && (forall i :: 0 <= i < SEGMENTS ==> st.segments[i] == EMPTY)
    && (forall r :: 0 <= r < RECORDS ==> !st.records[r].used)
  }

  lemma StartInv(st: State)
    requires Start(st)
    ensures Inv(st)
  {
    hide Pmem.CountUsed;
  }

  // ---- The tables, updated in place ----

  class Segments {
    var frames: Pmem.Frames
    var segments: seq<Segment>
    var records: seq<Record>

    ghost function Value(): State
      reads this
    {
      State(frames, segments, records)
    }

    ghost predicate Valid()
      reads this
    {
      Inv(Value())
    }

    constructor (st: State)
      requires Inv(st)
      ensures Valid() && Value() == st
    {
      frames, segments, records := st.frames, st.segments, st.records;
    }

    method ReleaseSegment(i: nat)
      requires |frames.taken| == |frames.refcount| && i < |segments|
      modifies this
      ensures Value() == Release(old(Value()), i)
    {
      if !segments[i].used || segments[i].attachments != 0 {
        return;
      }
      ghost var before := frames;
      var phys := segments[i].phys;
      for a := 0 to |phys|
        invariant frames == DerefAll(before, phys[..a]) && |frames.taken| == |frames.refcount|
        invariant segments == old(segments) && records == old(records)
      {
        assert phys[..a + 1][..a] == phys[..a];
        frames := Pmem.Deref(frames, phys[a]);
      }
      assert phys[..|phys|] == phys;
      segments := segments[i := EMPTY];
    }

    method GetSegment(key: nat, size: nat, create: bool, exclusive: bool) returns (result: int)
      requires Valid()
      modifies this
      ensures Valid() && (Value(), result) == Get(old(Value()), key, size, create, exclusive)
    {
      hide Pmem.CountUsed, SegmentOk, Disjoint, PagesFor;
      ghost var st := Value();
      GetKeepsInv(st, key, size, create, exclusive);
      if size == 0 {
        return EINVAL;
      }
      var pages := PagesFor(size);
      if pages > MAX_PAGES {
        return ENOMEM;
      }
      if key != 0 {
        var k := 0;
        while k < SEGMENTS
          invariant k <= SEGMENTS && FindKey(segments, key, 0) == FindKey(segments, key, k)
        {
          if segments[k].used && !segments[k].removed && segments[k].key == key {
            return if exclusive && create then EEXIST else k;
          }
          k := k + 1;
        }
      }
      if !create && key != 0 {
        return ENOENT;
      }
      var i := 0;
      while i < SEGMENTS && segments[i].used
        invariant i <= SEGMENTS && FindFree(segments, 0) == FindFree(segments, i)
      {
        i := i + 1;
      }
      if i == SEGMENTS {
        return ENOSPC;
      }
      var phys := AllocateFrames(pages);
      segments := segments[i := Segment(true, false, 0, key, size, phys)];
      if |phys| < pages {
        ReleaseSegment(i);
        return ENOMEM;
      }
      result := i;
    }

    method AllocateFrames(pages: nat) returns (phys: seq<nat>)
      requires |frames.taken| == |frames.refcount| == Pmem.FRAMES && frames.cursor < Pmem.FRAMES
      modifies this`frames
      ensures (frames, phys) == AllocPages(old(frames), pages)
    {
      hide Pmem.Pick, Pmem.Alloc;
      ghost var before := frames;
      phys := [];
      while |phys| < pages
        invariant |phys| <= pages && AllocPages(before, |phys|) == (frames, phys)
      {
        match Pmem.Pick(frames, 1)
        case Nothing =>
          AllocStops(before, |phys|, pages);
          return;
        case Frame(f) =>
          frames := Pmem.Alloc(frames, 1);
          phys := phys + [f];
      }
    }

    method AttachSegment(pid: nat, shmid: int, address: nat) returns (result: nat)
      requires Valid()
      modifies this
      ensures Valid() && (Value(), result) == Attach(old(Value()), pid, shmid, address)
    {
      hide Pmem.CountUsed, SegmentOk, Disjoint;
      ghost var st := Value();
      AttachKeepsInv(st, pid, shmid, address);
      if !(0 <= shmid < SEGMENTS) || !segments[shmid].used || segments[shmid].removed || address == 0 {
        return 0;
      }
      var slot := 0;
      while slot < RECORDS && records[slot].used
        invariant slot <= RECORDS && FindRecord(records, 0) == FindRecord(records, slot)
      {
        slot := slot + 1;
      }
      if slot == RECORDS {
        return 0;
      }
      var phys := segments[shmid].phys;
      ghost var before := frames;
      for a := 0 to |phys|
        invariant frames == RefAll(before, phys[..a]) && |frames.taken| == |frames.refcount|
        invariant segments == st.segments && records == st.records
      {
        assert phys[..a + 1][..a] == phys[..a];
        frames := Pmem.Ref(frames, phys[a]);
      }
      assert phys[..|phys|] == phys;
      records := records[slot := Record(true, pid, shmid, address)];
      segments := segments[shmid := segments[shmid].(attachments := segments[shmid].attachments + 1)];
      result := address;
    }

    method DetachSegment(pid: nat, address: nat) returns (result: int)
      requires Valid()
      modifies this
      ensures Valid() && (Value(), result) == Detach(old(Value()), pid, address)
    {
      hide Pmem.CountUsed, SegmentOk, Disjoint;
      ghost var st := Value();
      DetachEffect(st, pid, address);
      if address == 0 {
        return EINVAL;
      }
      var r := 0;
      while r < RECORDS && !(records[r].used && records[r].pid == pid && records[r].address == address)
        invariant r <= RECORDS && FindAttached(records, pid, address, 0) == FindAttached(records, pid, address, r)
      {
        r := r + 1;
      }
      if r == RECORDS {
        return EINVAL;
      }
      var i := records[r].shmid;
      var phys := segments[i].phys;
      ghost var before := frames;
      for a := 0 to |phys|
        invariant frames == DerefAll(before, phys[..a]) && |frames.taken| == |frames.refcount|
        invariant segments == st.segments && records == st.records
      {
        assert phys[..a + 1][..a] == phys[..a];
        frames := Pmem.Deref(frames, phys[a]);
      }
      assert phys[..|phys|] == phys;
      records := records[r := records[r].(used := false)];
      if segments[i].attachments > 0 {
        segments := segments[i := segments[i].(attachments := segments[i].attachments - 1)];
      } else {
        segments := segments[i := segments[i].(attachments := 0)];
      }
      if segments[i].removed {
        ReleaseSegment(i);
      }
      result := 0;
    }

    method RemoveSegment(shmid: int) returns (result: int)
      requires Valid()
      modifies this
      ensures Valid() && (Value(), result) == Remove(old(Value()), shmid)
    {
      hide Pmem.CountUsed, SegmentOk, Disjoint;
      RemoveEffect(Value(), shmid);
      if !(0 <= shmid < SEGMENTS) || !segments[shmid].used {
        return EINVAL;
      }
      segments := segments[shmid := segments[shmid].(removed := true)];
      if segments[shmid].attachments == 0 {
        ReleaseSegment(shmid);
      }
      result := 0;
    }
  }

  lemma {:induction false} AllocStops(m: Pmem.Frames, k: nat, n: nat)
    requires |m.taken| == |m.refcount| == Pmem.FRAMES && m.cursor < Pmem.FRAMES && k < n
    requires |AllocPages(m, k).1| == k && Pmem.Pick(AllocPages(m, k).0, 1).Nothing?
    ensures AllocPages(m, n) == AllocPages(m, k)
    decreases n
  {
    hide Pmem.Pick, Pmem.Alloc;
    if n > k + 1 {
      AllocStops(m, k, n - 1);
    }
  }
}
