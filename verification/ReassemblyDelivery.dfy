/** A datagram cut into fragments is delivered once, with its last fragment, in any arrival order. */
module ReassemblyDelivery {
  import opened Bits
  import opened Reassembly
  import opened ReassemblyRuns

  /** A datagram before it was cut: link and IP header of its first fragment, and the payload. */
  datatype Whole = Whole(key: FlowKey, header: seq<Byte>, payload: seq<Byte>)

  predicate PieceOf(w: Whole, p: Fragment) {
    && p.key == w.key && Received(p) && p.data != [] && End(p) <= |w.payload| && p.data == w.payload[p.offset..End(p)]
    && (p.more <==> End(p) < |w.payload|) && (p.offset == 0 ==> p.header == w.header)
  }

  predicate Apart(p: Fragment, q: Fragment) { End(p) <= q.offset || End(q) <= p.offset }

  predicate In(p: Fragment, b: nat) { p.offset <= b < End(p) }

  predicate InSome(pieces: set<Fragment>, b: nat) { exists p :: p in pieces && In(p, b) }

  /** The pieces are disjoint, not empty, at most 32, and cover the payload. */
  predicate Cut(w: Whole, pieces: set<Fragment>) {
    && (forall p :: p in pieces ==> PieceOf(w, p))
    && (forall p, q :: p in pieces && q in pieces && p != q ==> Apart(p, q))
    && (forall b :: 0 <= b < |w.payload| ==> InSome(pieces, b))
    && |pieces| <= RANGES && w.payload != []
    && ETHERNET + 20 <= |w.header| <= ETHERNET + 60 && |w.header| - ETHERNET + |w.payload| <= MAX_PAYLOAD
  }

  function Delivered(w: Whole): Datagram
    requires ETHERNET + 20 <= |w.header| && |w.header| - ETHERNET + |w.payload| <= MAX_PAYLOAD
  {
    Datagram(w.key, WholeHeader(w.header, |w.payload|), w.payload)
  }

  function Set(got: seq<Fragment>): set<Fragment> { set p | p in got }

  predicate NoRepeat(got: seq<Fragment>) {
    forall i, j :: 0 <= i < j < |got| ==> got[i] != got[j]
  }

  lemma {:induction false} NoRepeatSize(got: seq<Fragment>)
    requires NoRepeat(got)
    ensures |Set(got)| == |got|
  {
    if got != [] {
      var init, p := got[..|got| - 1], got[|got| - 1];
      NoRepeatSize(init);
      assert got == init + [p];
      assert Set(got) == Set(init) + {p};
    }
  }

  /** Some pieces have arrived, each once, and the slot holds them. */
  predicate Partial(w: Whole, pieces: set<Fragment>, s: Slot, got: seq<Fragment>) {
    && Cut(w, pieces) && NoRepeat(got) && Set(got) <= pieces && s.used && s.available && s.key == w.key
    && SlotOk(s) && HeaderOk(s) && Holds(s, got)
  }

  /** A piece not yet there meets no stored range, and there is room for it. */
  lemma NextFits(w: Whole, pieces: set<Fragment>, s: Slot, got: seq<Fragment>, f: Fragment)
    requires Partial(w, pieces, s, got) && f in pieces && f !in got
    ensures !Meets(s.ranges, f) && |s.ranges| < RANGES && End(f) <= MAX_PAYLOAD && f.data != [] && Received(f)
  {
    hide SlotOk, HeaderOk;
    assert PieceOf(w, f);
    forall i | 0 <= i < |s.ranges|
      ensures !Overlaps(s.ranges[i], f.offset, End(f))
    {
      assert HoldsPiece(s, i, got[i]);
      assert got[i] in Set(got) && Apart(got[i], f);
    }
    NoRepeatSize(got);
    SubsetSmaller(Set(got), pieces, f);
  }

  lemma SubsetSmaller(a: set<Fragment>, b: set<Fragment>, f: Fragment)
    requires a <= b && f in b && f !in a
    ensures |a| < |b|
  {
    assert b == a + (b - a);
    assert f in b - a;
  }

  /** While a piece is missing the slot is not complete. */
  lemma MissingIsIncomplete(w: Whole, pieces: set<Fragment>, s: Slot, got: seq<Fragment>, f: Fragment)
    requires Partial(w, pieces, s, got) && f in pieces && f !in got
    ensures !Walk(s, 0)
  {
    hide SlotOk, Walk;
    CompleteIff(s);
    assert PieceOf(w, f);
    if s.haveLast {
      var k :| 0 <= k < |got| && !got[k].more && End(got[k]) == s.total;
      assert got[k] in Set(got) && PieceOf(w, got[k]);
      assert s.total == |w.payload|;
      forall i | 0 <= i < |s.ranges|
        ensures !Covers(s.ranges[i], f.offset)
      {
        assert HoldsPiece(s, i, got[i]);
        assert got[i] in Set(got) && PieceOf(w, got[i]) && Apart(got[i], f);
      }
      assert !Covered(s.ranges, f.offset);
    }
  }

  lemma PieceIndex(got: seq<Fragment>, p: Fragment) returns (i: nat)
    requires p in got
    ensures i < |got| && got[i] == p
  {
    i :| 0 <= i < |got| && got[i] == p;
  }

  lemma PieceAt(w: Whole, pieces: set<Fragment>, b: nat) returns (p: Fragment)
    requires Cut(w, pieces) && b < |w.payload|
    ensures p in pieces && In(p, b) && PieceOf(w, p)
  {
    assert InSome(pieces, b);
    p :| p in pieces && In(p, b);
  }

  /** Once every piece is there: the length is known, the header stored, and every byte in place. */
  lemma FullSlot(w: Whole, pieces: set<Fragment>, s: Slot, got: seq<Fragment>)
    requires Partial(w, pieces, s, got) && Set(got) == pieces
    ensures s.haveLast && s.total == |w.payload| && s.header == w.header && |w.payload| <= |s.payload|
  {
    hide SlotOk, HeaderOk;
    var last := PieceAt(w, pieces, |w.payload| - 1);
    var l := PieceIndex(got, last);
    assert HoldsPiece(s, l, got[l]);
    var k :| 0 <= k < |got| && !got[k].more && End(got[k]) == s.total;
    assert got[k] in Set(got) && PieceOf(w, got[k]);
    var first := PieceAt(w, pieces, 0);
    var h := PieceIndex(got, first);
    assert got[h].offset == 0;
    var g :| 0 <= g < |got| && got[g].offset == 0 && got[g].header == s.header;
    assert got[g] in Set(got) && PieceOf(w, got[g]);
  }

  lemma FullByte(w: Whole, pieces: set<Fragment>, s: Slot, got: seq<Fragment>, b: nat)
    requires Partial(w, pieces, s, got) && Set(got) == pieces && b < |w.payload| <= |s.payload|
    ensures Covered(s.ranges, b) && s.payload[b] == w.payload[b]
  {
    hide SlotOk, HeaderOk;
    var p := PieceAt(w, pieces, b);
    var i := PieceIndex(got, p);
    assert HoldsPiece(s, i, p) && Covers(s.ranges[i], b);
    assert s.payload[p.offset..End(p)][b - p.offset] == s.payload[b];
    assert w.payload[p.offset..End(p)][b - p.offset] == w.payload[b];
  }

  /** The slot is complete, and what it yields is the datagram that was cut. */
  lemma FullIsDelivered(w: Whole, pieces: set<Fragment>, s: Slot, got: seq<Fragment>)
    requires Partial(w, pieces, s, got) && Set(got) == pieces
    ensures Walk(s, 0) && s.header != [] && s.total <= |s.payload| && |s.header| >= ETHERNET + 20
    ensures Finish(s) == Some(Delivered(w))
  {
    hide SlotOk, Walk, WholeHeader;
    FullSlot(w, pieces, s, got);
    forall b | 0 <= b < |w.payload|
      ensures Covered(s.ranges, b) && s.payload[b] == w.payload[b]
    {
      FullByte(w, pieces, s, got, b);
    }
    CompleteIff(s);
    assert s.payload[..s.total] == w.payload;
  }

  // ---- Steps ----

  /** The slot of the datagram, if it has one. */
  function Mine(slots: seq<Slot>, key: FlowKey): nat { Find(slots, key, 0) }

  lemma FoundAt(slots: seq<Slot>, key: FlowKey, i: nat)
    requires Inv(slots) && i < SLOTS && slots[i].used && slots[i].key == key
    ensures Mine(slots, key) == i
  {
    hide SlotOk, HeaderOk;
    var j := Mine(slots, key);
    assert j <= i;
  }

  lemma NotFound(slots: seq<Slot>, key: FlowKey)
    requires Inv(slots) && forall i :: 0 <= i < SLOTS && slots[i].used ==> slots[i].key != key
    ensures Mine(slots, key) == SLOTS
  {
  }

  /** A step changes at most one slot that has not expired: one of its own datagram, or an unused one. */
  lemma StepTouches(slots: seq<Slot>, e: Event, m: nat)
    requires Inv(slots) && Received(e.fragment) && m < SLOTS
    requires slots[m].used && slots[m].key != e.fragment.key && !Expired(slots[m], e.now)
    ensures |Reassemble(slots, e).0| == SLOTS && Reassemble(slots, e).0[m] == slots[m]
  {
    hide SlotOk, HeaderOk, Walk, WholeHeader, Meets, Splice, Expired, Store, Cleared, Finish;
  }

  /** Whatever is in use after a step was in use before, or belongs to the step's datagram. */
  lemma StepBrings(slots: seq<Slot>, e: Event, m: nat)
    requires Inv(slots) && Received(e.fragment) && m < SLOTS
    ensures |Reassemble(slots, e).0| == SLOTS
    ensures var n := Reassemble(slots, e).0[m];
            n.used ==> n.key == e.fragment.key || (slots[m].used && n.key == slots[m].key)
  {
    hide SlotOk, HeaderOk, Walk, WholeHeader, Meets, Splice, Expired, Finish;
  }

  lemma OutputKey(slots: seq<Slot>, e: Event)
    requires Inv(slots) && Received(e.fragment)
    ensures var out := Reassemble(slots, e).1; out.Some? ==> out.value.key == e.fragment.key
  {
    hide SlotOk, HeaderOk, Walk, WholeHeader, Meets, Splice, Expired;
  }

  /** A fragment of another datagram leaves this one's slot alone unless its time is up. */
  lemma OtherStep(slots: seq<Slot>, e: Event, key: FlowKey)
    requires Inv(slots) && Received(e.fragment) && e.fragment.key != key
    requires Mine(slots, key) < SLOTS ==> !Expired(slots[Mine(slots, key)], e.now)
    ensures var (next, out) := Reassemble(slots, e);
            && Inv(next) && Mine(next, key) == Mine(slots, key)
            && (Mine(slots, key) < SLOTS ==> next[Mine(slots, key)] == slots[Mine(slots, key)])
            && (out.Some? ==> out.value.key != key)
  {
    hide SlotOk, HeaderOk, Reassemble, Expired;
    ReassembleKeepsInv(slots, e);
    OutputKey(slots, e);
    var next := Reassemble(slots, e).0;
    var m := Mine(slots, key);
    if m < SLOTS {
      StepTouches(slots, e, m);
      FoundAt(next, key, m);
    } else {
      forall i | 0 <= i < SLOTS && next[i].used
        ensures next[i].key != key
      {
        StepBrings(slots, e, i);
      }
      NotFound(next, key);
    }
  }

  /** The slot a fragment of the datagram goes to, and what is in it then. */
  lemma OurPlace(slots: seq<Slot>, e: Event, key: FlowKey)
    requires Inv(slots) && e.fragment.key == key && Calm(slots, e, key)
    ensures var (placed, i) := Place(Expire(slots, e.now), key);
            && i < SLOTS && Inv(placed) && placed[i].used && placed[i].key == key
            && (Mine(slots, key) < SLOTS ==> placed[i] == slots[Mine(slots, key)])
            && (Mine(slots, key) == SLOTS ==> placed[i].available && placed[i] == Cleared(placed[i], key))
  {
    hide SlotOk, HeaderOk, Expired;
    var x := Expire(slots, e.now);
    PlaceKeepsInv(slots, e.now, key);
    var m := Mine(slots, key);
    if m < SLOTS {
      ExpireKeepsInv(slots, e.now);
      FoundAt(x, key, m);
    } else {
      assert Find(x, key, 0) == SLOTS;
    }
  }

  lemma ExpireKeepsInv(slots: seq<Slot>, now: int)
    requires Inv(slots)
    ensures Inv(Expire(slots, now))
  {
  }

  /** What the world must grant at an event: the datagram's slot has not timed out; and for its own
      fragments, a slot that can be used at the first one and a buffer to deliver into. */
  predicate Calm(slots: seq<Slot>, e: Event, key: FlowKey)
    requires |slots| == SLOTS
  {
    var m := Mine(slots, key);
    if m < SLOTS then !Expired(slots[m], e.now) && (e.fragment.key == key ==> e.memory)
    else e.fragment.key == key ==>
           var u := FindUnused(Expire(slots, e.now), 0); u < SLOTS && slots[u].available && e.memory
  }

  /** The pieces got so far are in the datagram's slot; before the first there is none. */
  predicate Tracks(w: Whole, pieces: set<Fragment>, slots: seq<Slot>, got: seq<Fragment>)
    requires |slots| == SLOTS
  {
    var m := Mine(slots, w.key);
    if got == [] then m == SLOTS && Cut(w, pieces) else m < SLOTS && Partial(w, pieces, slots[m], got)
  }

  /** One more piece: delivered if it was the last one missing, kept otherwise. */
  lemma OurStep(w: Whole, pieces: set<Fragment>, slots: seq<Slot>, got: seq<Fragment>, e: Event)
    requires Inv(slots) && Tracks(w, pieces, slots, got) && Calm(slots, e, w.key)
    requires e.fragment in pieces && e.fragment !in got && Received(e.fragment) && e.fragment.key == w.key
    ensures var (next, out) := Reassemble(slots, e);
            && Inv(next)
            && (if Set(got) + {e.fragment} == pieces then out == Some(Delivered(w)) && Mine(next, w.key) == SLOTS
                else out == None && Tracks(w, pieces, next, got + [e.fragment]))
  {
    hide SlotOk, HeaderOk, Expire, Place, Walk, WholeHeader, Finish, Store, Meets, Cut, Holds, Expired;
    var f := e.fragment;
    OurPlace(slots, e, w.key);
    ReassembleKeepsInv(slots, e);
    var (placed, i) := Place(Expire(slots, e.now), w.key);
    var s := placed[i];
    if got == [] {
      ClearedIsPartial(w, pieces, s);
    }
    NextFits(w, pieces, s, got, f);
    StoreOk(s, f, e.stored);
    StoreHolds(s, got, f, e.stored);
    var t, all := Store(s, f, e.stored), got + [f];
    StorePartial(w, pieces, s, got, f, e.stored);
    assert Set(all) == Set(got) + {f};
    var (next, out) := Reassemble(slots, e);
    if Set(all) == pieces {
      FullIsDelivered(w, pieces, t, all);
      assert next == placed[i := t.(used := false)];
      NotFound(next, w.key);
    } else {
      var q :| q in pieces && q !in Set(all);
      MissingIsIncomplete(w, pieces, t, all, q);
      assert next == placed[i := t];
      FoundAt(next, w.key, i);
    }
  }

  lemma ClearedIsPartial(w: Whole, pieces: set<Fragment>, s: Slot)
    requires Cut(w, pieces) && s.available && s == Cleared(s, w.key) && |s.payload| == MAX_PAYLOAD
    ensures Partial(w, pieces, s, [])
  {
  }

  lemma StorePartial(w: Whole, pieces: set<Fragment>, s: Slot, got: seq<Fragment>, f: Fragment, now: int)
    requires Partial(w, pieces, s, got) && f in pieces && f !in got && End(f) <= MAX_PAYLOAD
    requires SlotOk(Store(s, f, now)) && HeaderOk(Store(s, f, now)) && Holds(Store(s, f, now), got + [f])
    ensures Partial(w, pieces, Store(s, f, now), got + [f])
  {
    hide SlotOk, HeaderOk, Holds, Cut, Splice;
    assert forall p :: p in got + [f] ==> p in got || p == f;
    assert forall p :: p in got ==> p in Set(got);
  }

  // ---- Runs ----

  /** The pieces still to come arrive each once, among fragments of other datagrams. */
  predicate Arrive(events: seq<Event>, key: FlowKey, left: set<Fragment>)
    decreases |events|
  {
    if events == [] then left == {}
    else if events[0].fragment.key == key then
      events[0].fragment in left && Arrive(events[1..], key, left - {events[0].fragment})
    else Arrive(events[1..], key, left)
  }

  ghost predicate AllCalm(slots: seq<Slot>, events: seq<Event>, key: FlowKey)
    requires Inv(slots) && forall i :: 0 <= i < |events| ==> Received(events[i].fragment)
    decreases |events|
  {
    events != [] ==>
      Calm(slots, events[0], key) &&
      (ReassembleKeepsInv(slots, events[0]); AllCalm(Reassemble(slots, events[0]).0, events[1..], key))
  }

  /** No fragment of the datagram comes after event j. */
  predicate LastOne(events: seq<Event>, key: FlowKey, j: nat) {
    j < |events| && events[j].fragment.key == key && forall i :: j < i < |events| ==> events[i].fragment.key != key
  }

  lemma {:induction false} OnlyOthers(slots: seq<Slot>, events: seq<Event>, key: FlowKey, j: nat)
    requires Inv(slots) && j < |events| && Mine(slots, key) == SLOTS
    requires forall i :: 0 <= i < |events| ==> Received(events[i].fragment) && events[i].fragment.key != key
    ensures Outputs(slots, events)[j].Some? ==> Outputs(slots, events)[j].value.key != key
    decreases |events|
  {
    hide Inv, Reassemble, Mine;
    OtherStep(slots, events[0], key);
    if j > 0 {
      OnlyOthers(Reassemble(slots, events[0]).0, events[1..], key, j - 1);
    }
  }

  lemma {:induction false} NothingLeft(events: seq<Event>, key: FlowKey, i: nat)
    requires Arrive(events, key, {}) && i < |events|
    ensures events[i].fragment.key != key
    decreases |events|
  {
    if i > 0 {
      NothingLeft(events[1..], key, i - 1);
    }
  }

  lemma {:induction false} SomethingLeft(events: seq<Event>, key: FlowKey, left: set<Fragment>)
    requires Arrive(events, key, left) && left != {}
    ensures exists i :: 0 <= i < |events| && events[i].fragment.key == key
    decreases |events|
  {
    if events[0].fragment.key != key {
      SomethingLeft(events[1..], key, left);
      var i :| 0 <= i < |events[1..]| && events[1..][i].fragment.key == key;
      assert events[i + 1].fragment.key == key;
    }
  }

  lemma LastOneTail(events: seq<Event>, key: FlowKey, j: nat)
    requires 0 < j < |events|
    ensures LastOne(events, key, j) <==> LastOne(events[1..], key, j - 1)
  {
    var tail := events[1..];
    if LastOne(tail, key, j - 1) {
      forall i | j < i < |events|
        ensures events[i].fragment.key != key
      {
        assert tail[i - 1] == events[i];
      }
    }
  }

  lemma OutputsUnfold(slots: seq<Slot>, events: seq<Event>)
    requires Inv(slots) && events != [] && forall i :: 0 <= i < |events| ==> Received(events[i].fragment)
    ensures Inv(Reassemble(slots, events[0]).0)
    ensures var (next, out) := Reassemble(slots, events[0]);
            Outputs(slots, events) == [out] + Outputs(next, events[1..])
  {
    hide Inv, Reassemble;
    ReassembleKeepsInv(slots, events[0]);
  }

  lemma TracksOn(w: Whole, pieces: set<Fragment>, slots: seq<Slot>, next: seq<Slot>, got: seq<Fragment>)
    requires Inv(slots) && Inv(next) && Tracks(w, pieces, slots, got) && Mine(next, w.key) == Mine(slots, w.key)
    requires Mine(slots, w.key) < SLOTS ==> next[Mine(slots, w.key)] == slots[Mine(slots, w.key)]
    ensures Tracks(w, pieces, next, got)
  {
    hide Mine, Partial, Cut;
  }

  lemma NotInSet(got: seq<Fragment>, f: Fragment)
    requires f !in Set(got)
    ensures f !in got
  {
  }

  lemma SetGrows(pieces: set<Fragment>, got: seq<Fragment>, f: Fragment)
    ensures Set(got + [f]) == Set(got) + {f}
    ensures pieces - Set(got) - {f} == pieces - Set(got + [f])
  {
    assert Set(got + [f]) == Set(got) + {f};
  }

  /** Whatever the order of the pieces and whatever arrives in between: the datagram is delivered with
      its last piece, with exactly the payload that was cut, and at no other event. */
  lemma {:induction false} DeliveredOnce(w: Whole, pieces: set<Fragment>, slots: seq<Slot>, got: seq<Fragment>,
                                         events: seq<Event>, j: nat)
    requires Inv(slots) && Tracks(w, pieces, slots, got) && j < |events|
    requires forall i :: 0 <= i < |events| ==> Received(events[i].fragment)
    requires Set(got) <= pieces && Set(got) != pieces && Arrive(events, w.key, pieces - Set(got))
    requires AllCalm(slots, events, w.key)
    ensures LastOne(events, w.key, j) ==> Cut(w, pieces) && Outputs(slots, events)[j] == Some(Delivered(w))
    ensures !LastOne(events, w.key, j) ==>
              Outputs(slots, events)[j].None? || Outputs(slots, events)[j].value.key != w.key
    decreases |events|
  {
    hide Inv, Reassemble, Cut, Calm, Mine, Partial, Delivered, Outputs, Tracks, Set;
    OutputsUnfold(slots, events);
    var e, key := events[0], w.key;
    var f := e.fragment;
    TracksCut(w, pieces, slots, got);
    if j > 0 {
      LastOneTail(events, key, j);
    }
    if f.key != key {
      CalmForOthers(slots, e, key);
      OtherStep(slots, e, key);
      var next := Reassemble(slots, e).0;
      TracksOn(w, pieces, slots, next, got);
      if j > 0 {
        DeliveredOnce(w, pieces, next, got, events[1..], j - 1);
      }
    } else {
      NotInSet(got, f);
      OurStep(w, pieces, slots, got, e);
      var next := Reassemble(slots, e).0;
      SetGrows(pieces, got, f);
      if Set(got) + {f} == pieces {
        assert pieces - Set(got) - {f} == {};
        forall i | 1 <= i < |events|
          ensures events[i].fragment.key != key
        {
          NothingLeft(events[1..], key, i - 1);
        }
        if j > 0 {
          OnlyOthers(next, events[1..], key, j - 1);
        }
      } else {
        var q :| q in pieces && q !in Set(got + [f]);
        SomethingLeft(events[1..], key, pieces - Set(got + [f]));
        var i :| 0 <= i < |events[1..]| && events[1..][i].fragment.key == key;
        assert events[i + 1].fragment.key == key;
        if j > 0 {
          DeliveredOnce(w, pieces, next, got + [f], events[1..], j - 1);
        }
      }
    }
  }

  lemma TracksCut(w: Whole, pieces: set<Fragment>, slots: seq<Slot>, got: seq<Fragment>)
    requires Inv(slots) && Tracks(w, pieces, slots, got)
    ensures Cut(w, pieces)
  {
  }

  lemma CalmForOthers(slots: seq<Slot>, e: Event, key: FlowKey)
    requires Inv(slots) && Calm(slots, e, key)
    ensures Mine(slots, key) < SLOTS ==> !Expired(slots[Mine(slots, key)], e.now)
  {
  }
}
