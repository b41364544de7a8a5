/** What reassembly delivers over whole runs: nothing but bytes of fragments that arrived, and every
    datagram whose fragments all arrive, in whatever order, exactly once. */
module ReassemblyRuns {
  import opened Bits
  import opened Reassembly

  ghost function Outputs(slots: seq<Slot>, events: seq<Event>): (r: seq<Option<Datagram>>)
    requires Inv(slots) && forall i :: 0 <= i < |events| ==> Received(events[i].fragment)
    ensures |r| == |events|
    decreases |events|
  {
    if events == [] then []
    else
      ReassembleKeepsInv(slots, events[0]);
      var (next, out) := Reassemble(slots, events[0]);
      [out] + Outputs(next, events[1..])
  }

  // ---- What a slot holds ----

  predicate HoldsPiece(s: Slot, i: nat, f: Fragment) {
    && i < |s.ranges| && s.ranges[i] == Range(f.offset, End(f)) && End(f) <= |s.payload|
    && s.payload[f.offset..End(f)] == f.data && f.key == s.key && Received(f)
  }

  /** The slot is what storing these fragments, in this order, makes of a cleared slot. */
  predicate Holds(s: Slot, got: seq<Fragment>) {
    && |s.ranges| == |got| && (forall i :: 0 <= i < |got| ==> HoldsPiece(s, i, got[i]))
    && (s.haveLast ==> exists i :: 0 <= i < |got| && !got[i].more && End(got[i]) == s.total)
    && (!s.haveLast ==> forall i :: 0 <= i < |got| ==> got[i].more)
    && (s.header == [] ==> forall i :: 0 <= i < |got| ==> got[i].offset != 0)
    && (s.header != [] ==> exists i :: 0 <= i < |got| && got[i].offset == 0 && got[i].header == s.header)
  }

  lemma SpliceElsewhere(buffer: seq<Byte>, at: nat, data: seq<Byte>, a: nat, b: nat)
    requires at + |data| <= |buffer| && a <= b <= |buffer| && (b <= at || at + |data| <= a)
    ensures Splice(buffer, at, data)[a..b] == buffer[a..b]
  {
  }

  lemma SpliceThere(buffer: seq<Byte>, at: nat, data: seq<Byte>)
    requires at + |data| <= |buffer|
    ensures Splice(buffer, at, data)[at..at + |data|] == data
  {
  }

  lemma StoreHolds(s: Slot, got: seq<Fragment>, f: Fragment, now: int)
    requires SlotOk(s) && Holds(s, got) && f.key == s.key && Received(f) && End(f) <= MAX_PAYLOAD && !Meets(s.ranges, f)
    requires f.data != []
    ensures Holds(Store(s, f, now), got + [f])
  {
    hide Splice, SlotOk;
    PayloadSize(s);
    var t, all := Store(s, f, now), got + [f];
    forall i | 0 <= i < |all|
      ensures HoldsPiece(t, i, all[i])
    {
      if i < |got| {
        assert HoldsPiece(s, i, got[i]);
        assert !Overlaps(s.ranges[i], f.offset, End(f));
        SpliceElsewhere(s.payload, f.offset, f.data, got[i].offset, End(got[i]));
      } else {
        SpliceThere(s.payload, f.offset, f.data);
      }
    }
    StoreFlags(s, got, f, now);
  }

  lemma PayloadSize(s: Slot)
    requires SlotOk(s)
    ensures |s.payload| == MAX_PAYLOAD
  {
  }

  lemma StoreFlags(s: Slot, got: seq<Fragment>, f: Fragment, now: int)
    requires |s.payload| == MAX_PAYLOAD && End(f) <= MAX_PAYLOAD && Holds(s, got) && Received(f)
    ensures var t, all := Store(s, f, now), got + [f];
            && (t.haveLast ==> exists i :: 0 <= i < |all| && !all[i].more && End(all[i]) == t.total)
            && (!t.haveLast ==> forall i :: 0 <= i < |all| ==> all[i].more)
            && (t.header == [] ==> forall i :: 0 <= i < |all| ==> all[i].offset != 0)
            && (t.header != [] ==> exists i :: 0 <= i < |all| && all[i].offset == 0 && all[i].header == t.header)
  {
    hide Splice, HoldsPiece;
    var t, all := Store(s, f, now), got + [f];
    assert all[|got|] == f;
    if f.more && s.haveLast {
      var i :| 0 <= i < |got| && !got[i].more && End(got[i]) == s.total;
      assert all[i] == got[i];
    }
    if f.offset != 0 && s.header != [] {
      var i :| 0 <= i < |got| && got[i].offset == 0 && got[i].header == s.header;
      assert all[i] == got[i];
    }
  }

  // ---- Nothing is delivered that did not arrive ----

  predicate From(d: Datagram, got: seq<Fragment>, b: nat) {
    b < |d.payload| && exists i :: 0 <= i < |got| && got[i].offset <= b < End(got[i])
                                   && got[i].data[b - got[i].offset] == d.payload[b]
  }

  /** Every byte of the datagram is a byte of one of these fragments at its place, the length is the
      end of a last fragment, and the header is that of the first one. */
  predicate Justified(d: Datagram, got: seq<Fragment>) {
    && (forall i :: 0 <= i < |got| ==> got[i].key == d.key)
    && (forall b :: 0 <= b < |d.payload| ==> From(d, got, b))
    && (exists i :: 0 <= i < |got| && !got[i].more && End(got[i]) == |d.payload|)
    && (exists i :: 0 <= i < |got| && got[i].offset == 0 && |got[i].header| >= ETHERNET + 20
                    && |got[i].header| - ETHERNET + |d.payload| <= MAX_PAYLOAD
                    && d.header == WholeHeader(got[i].header, |d.payload|))
  }

  predicate Within(got: seq<Fragment>, history: seq<Fragment>) {
    forall i :: 0 <= i < |got| ==> got[i] in history
  }

  ghost predicate HeldFrom(s: Slot, history: seq<Fragment>) {
    exists got :: Holds(s, got) && Within(got, history)
  }

  ghost predicate AllFrom(slots: seq<Slot>, history: seq<Fragment>) {
    forall i :: 0 <= i < |slots| && slots[i].used ==> HeldFrom(slots[i], history)
  }

  lemma FinishByte(s: Slot, got: seq<Fragment>, b: nat)
    requires SlotOk(s) && Holds(s, got) && b < s.total <= |s.payload| && Covered(s.ranges, b)
    ensures exists i :: 0 <= i < |got| && got[i].offset <= b < End(got[i])
                        && got[i].data[b - got[i].offset] == s.payload[..s.total][b]
  {
    hide SlotOk;
    var i :| 0 <= i < |s.ranges| && Covers(s.ranges[i], b);
    assert HoldsPiece(s, i, got[i]);
    assert s.payload[got[i].offset..End(got[i])][b - got[i].offset] == s.payload[b];
  }

  lemma FinishJustified(s: Slot, got: seq<Fragment>)
    requires SlotOk(s) && Holds(s, got) && s.header != [] && HeaderOk(s) && Walk(s, 0)
    ensures s.total <= |s.payload| && |s.header| >= ETHERNET + 20
    ensures Finish(s).Some? ==> Justified(Finish(s).value, got)
  {
    hide Walk, WholeHeader, Covered;
    CompleteIff(s);
    var k :| 0 <= k < |got| && !got[k].more && End(got[k]) == s.total;
    assert HoldsPiece(s, k, got[k]);
    if Finish(s).Some? {
      var d := Finish(s).value;
      forall b | 0 <= b < |d.payload|
        ensures From(d, got, b)
      {
        FinishByte(s, got, b);
      }
      forall i | 0 <= i < |got|
        ensures got[i].key == d.key
      {
        assert HoldsPiece(s, i, got[i]);
      }
    }
  }

  lemma ClearedHolds(s: Slot, key: FlowKey, history: seq<Fragment>)
    ensures HeldFrom(Cleared(s, key), history)
  {
    assert Holds(Cleared(s, key), []);
    assert Within([], history);
  }

  lemma PlaceFrom(slots: seq<Slot>, now: int, key: FlowKey, history: seq<Fragment>)
    requires Inv(slots) && AllFrom(slots, history)
    ensures AllFrom(Place(Expire(slots, now), key).0, history)
  {
    hide HeldFrom, SlotOk, HeaderOk;
    var x := Expire(slots, now);
    assert AllFrom(x, history);
    var j := FindUnused(x, 0);
    if j < SLOTS {
      ClearedHolds(x[j], key, history);
    }
  }

  lemma LongerHistory(s: Slot, history: seq<Fragment>, f: Fragment)
    requires HeldFrom(s, history)
    ensures HeldFrom(s, history + [f])
  {
    var got :| Holds(s, got) && Within(got, history);
    assert Within(got, history + [f]);
  }

  lemma AcceptJustified(slots: seq<Slot>, i: nat, e: Event, history: seq<Fragment>)
    requires Inv(slots) && AllFrom(slots, history) && i < SLOTS && slots[i].used && slots[i].key == e.fragment.key
    requires Received(e.fragment) && e.fragment.data != [] && End(e.fragment) <= MAX_PAYLOAD
    ensures var (next, out) := Accept(slots, i, e);
            && AllFrom(next, history + [e.fragment])
            && (out.Some? ==> exists got :: Justified(out.value, got) && Within(got, history + [e.fragment]))
  {
    hide HeldFrom, SlotOk, HeaderOk, Walk, Finish, Justified, Store, Meets;
    var f, s := e.fragment, slots[i];
    forall j | 0 <= j < SLOTS && slots[j].used
      ensures HeldFrom(slots[j], history + [f])
    {
      LongerHistory(slots[j], history, f);
    }
    if s.available && |s.ranges| < RANGES && !Meets(s.ranges, f) {
      StoreOk(s, f, e.stored);
      var got := HeldList(s, history);
      StoreHolds(s, got, f, e.stored);
      assert Within(got + [f], history + [f]);
      var t := Store(s, f, e.stored);
      HeldBy(t, got + [f], history + [f]);
      if t.header != [] && Walk(t, 0) {
        FinishJustified(t, got + [f]);
      }
    }
  }

  lemma HeldList(s: Slot, history: seq<Fragment>) returns (got: seq<Fragment>)
    requires HeldFrom(s, history)
    ensures Holds(s, got) && Within(got, history)
  {
    got :| Holds(s, got) && Within(got, history);
  }

  lemma HeldBy(s: Slot, got: seq<Fragment>, history: seq<Fragment>)
    requires Holds(s, got) && Within(got, history)
    ensures HeldFrom(s, history)
  {
  }

  lemma StepJustified(slots: seq<Slot>, e: Event, history: seq<Fragment>)
    requires Inv(slots) && AllFrom(slots, history) && Received(e.fragment)
    ensures var (next, out) := Reassemble(slots, e);
            && AllFrom(next, history + [e.fragment])
            && (out.Some? ==> exists got :: Justified(out.value, got) && Within(got, history + [e.fragment]))
  {
    hide HeldFrom, SlotOk, HeaderOk, Accept, Place, Expire, Justified;
    var f := e.fragment;
    forall j | 0 <= j < SLOTS && slots[j].used
      ensures HeldFrom(slots[j], history + [f])
    {
      LongerHistory(slots[j], history, f);
    }
    if End(f) <= MAX_PAYLOAD && f.data != [] {
      PlaceFrom(slots, e.now, f.key, history);
      PlaceKeepsInv(slots, e.now, f.key);
      var (placed, i) := Place(Expire(slots, e.now), f.key);
      if i < SLOTS {
        AcceptJustified(placed, i, e, history);
      } else {
        PlaceFrom(slots, e.now, f.key, history + [f]);
      }
    }
  }

  function Fragments(events: seq<Event>): (r: seq<Fragment>)
    ensures |r| == |events|
  {
    if events == [] then [] else [events[0].fragment] + Fragments(events[1..])
  }

  /** In every run, whatever is delivered is justified by fragments that arrived by then. */
  lemma {:induction false} RunJustified(slots: seq<Slot>, events: seq<Event>, history: seq<Fragment>, j: nat)
    requires Inv(slots) && AllFrom(slots, history) && j < |events|
    requires forall i :: 0 <= i < |events| ==> Received(events[i].fragment)
    ensures Outputs(slots, events)[j].Some? ==>
              exists got :: Justified(Outputs(slots, events)[j].value, got)
                            && Within(got, history + Fragments(events[..j + 1]))
    decreases |events|
  {
    hide Inv, AllFrom, Reassemble, Justified;
    var f := events[0].fragment;
    StepJustified(slots, events[0], history);
    ReassembleKeepsInv(slots, events[0]);
    if j == 0 {
      assert events[..1] == [events[0]];
      assert Fragments(events[..1]) == [f];
    } else {
      RunJustified(Reassemble(slots, events[0]).0, events[1..], history + [f], j - 1);
      assert events[1..][..j] == events[..j + 1][1..];
      assert history + [f] + Fragments(events[1..][..j]) == history + Fragments(events[..j + 1]);
    }
  }
}
