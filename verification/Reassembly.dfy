/** IPv4 reassembly: four slots, each collecting the fragments of one datagram in a buffer that is
    used over and over. */
module Reassembly {
  import opened Bits
  import Checksum

  const SLOTS: nat := 4
  const RANGES: nat := 32
  const TIMEOUT: nat := 10000
  const MAX_PAYLOAD: nat := 65535
  const ETHERNET: nat := 14

  datatype FlowKey = FlowKey(device: nat, source: nat, destination: nat, identification: nat, protocol: nat)

  /** A fragment as it arrives: link and IP header, and its piece of the payload. */
  datatype Fragment = Fragment(key: FlowKey, header: seq<Byte>, offset: nat, more: bool, data: seq<Byte>)

  function End(f: Fragment): nat { f.offset + |f.data| }

  /** What the IP layer guarantees of a fragment it hands over. */
  predicate Received(f: Fragment) {
    ETHERNET + 20 <= |f.header| <= ETHERNET + 60 && f.offset % 8 == 0
  }

  datatype Range = Range(start: nat, end: nat)
  datatype Slot = Slot(used: bool, available: bool, haveLast: bool, total: nat, key: FlowKey, lastTick: int,
                       ranges: seq<Range>, header: seq<Byte>, payload: seq<Byte>)
  datatype Datagram = Datagram(key: FlowKey, header: seq<Byte>, payload: seq<Byte>)
  /** A fragment with the clock at arrival and when it is stored, and whether a buffer can be had. */
  datatype Event = Event(fragment: Fragment, now: int, stored: int, memory: bool)

  // ---- Ranges ----

  predicate Overlaps(r: Range, start: nat, end: nat) { start < r.end && end > r.start }

  predicate Covers(r: Range, b: nat) { r.start <= b < r.end }

  predicate Covered(rs: seq<Range>, b: nat) { exists i :: 0 <= i < |rs| && Covers(rs[i], b) }

  /** Stored ranges are not empty and do not meet. */
  predicate Separate(rs: seq<Range>) {
    && (forall i :: 0 <= i < |rs| ==> rs[i].start < rs[i].end <= MAX_PAYLOAD)
    && (forall i, j :: 0 <= i < j < |rs| ==> !Overlaps(rs[i], rs[j].start, rs[j].end))
  }

  predicate SlotOk(s: Slot) {
    && Separate(s.ranges) && |s.ranges| <= RANGES && |s.payload| == MAX_PAYLOAD
    && (s.haveLast ==> exists i :: 0 <= i < |s.ranges| && s.ranges[i].end == s.total)
    && (!s.haveLast ==> s.total == 0)
  }

  function StartingAt(rs: seq<Range>, pos: nat, i: nat): (r: nat)
    requires i <= |rs|
    ensures i <= r <= |rs| && (r < |rs| ==> rs[r].start == pos) && forall j :: i <= j < r ==> rs[j].start != pos
    decreases |rs| - i
  {
    if i == |rs| || rs[i].start == pos then i else StartingAt(rs, pos, i + 1)
  }

  /** Follows the ranges end to start from pos; true if that arrives exactly at the total. */
  function Walk(s: Slot, pos: nat): bool
    requires Separate(s.ranges) && pos <= MAX_PAYLOAD
    decreases MAX_PAYLOAD - pos
  {
    var i := StartingAt(s.ranges, pos, 0);
    if i == |s.ranges| then false
    else if s.ranges[i].end == s.total then s.haveLast
    else if s.ranges[i].end > s.total then false
    else Walk(s, s.ranges[i].end)
  }

  /** No range straddles p. */
  predicate Boundary(rs: seq<Range>, p: nat) {
    forall i :: 0 <= i < |rs| ==> rs[i].end <= p || p <= rs[i].start
  }

  lemma EndIsBoundary(rs: seq<Range>, i: nat)
    requires Separate(rs) && i < |rs|
    ensures Boundary(rs, rs[i].end)
  {
    forall j | 0 <= j < |rs|
      ensures rs[j].end <= rs[i].end || rs[i].end <= rs[j].start
    {
      if i < j {
        assert !Overlaps(rs[i], rs[j].start, rs[j].end);
      } else if j < i {
        assert !Overlaps(rs[j], rs[i].start, rs[i].end);
      }
    }
  }

  lemma {:induction false} WalkIff(s: Slot, pos: nat)
    requires SlotOk(s) && Boundary(s.ranges, pos) && pos <= MAX_PAYLOAD && (s.haveLast ==> pos < s.total)
    ensures Walk(s, pos) <==> s.haveLast && forall b :: pos <= b < s.total ==> Covered(s.ranges, b)
    decreases MAX_PAYLOAD - pos
  {
    hide Covered, Overlaps;
    var rs, i := s.ranges, StartingAt(s.ranges, pos, 0);
    if i == |rs| {
      UncoveredAt(rs, pos);
    } else {
      var end := rs[i].end;
      EndIsBoundary(rs, i);
      CoveredBy(rs, i);
      if s.haveLast {
        var k :| 0 <= k < |rs| && rs[k].end == s.total;
        EndIsBoundary(rs, k);
      }
      if end < s.total {
        WalkIff(s, end);
      }
    }
  }

  lemma CoveredBy(rs: seq<Range>, i: nat)
    requires i < |rs|
    ensures forall b :: rs[i].start <= b < rs[i].end ==> Covered(rs, b)
  {
    forall b | rs[i].start <= b < rs[i].end
      ensures Covered(rs, b)
    {
      assert Covers(rs[i], b);
    }
  }

  lemma UncoveredAt(rs: seq<Range>, pos: nat)
    requires Boundary(rs, pos) && forall j :: 0 <= j < |rs| ==> rs[j].start != pos
    ensures !Covered(rs, pos)
  {
  }

  /** The completeness test says yes exactly when the last fragment is known and no byte is missing. */
  lemma CompleteIff(s: Slot)
    requires SlotOk(s)
    ensures Walk(s, 0) <==> s.haveLast && forall b :: 0 <= b < s.total ==> Covered(s.ranges, b)
  {
    hide Covered, Walk;
    if s.haveLast {
      var k :| 0 <= k < |s.ranges| && s.ranges[k].end == s.total;
    }
    WalkIff(s, 0);
  }

  // ---- Slots ----

  predicate Expired(s: Slot, now: int) { (now - s.lastTick) % TWO_32 >= TIMEOUT }

  function Expire(slots: seq<Slot>, now: int): (r: seq<Slot>)
    ensures |r| == |slots|
    ensures forall i :: 0 <= i < |slots| ==>
                          r[i] == if slots[i].used && Expired(slots[i], now) then slots[i].(used := false) else slots[i]
  {
    seq(|slots|, i requires 0 <= i < |slots| =>
      if slots[i].used && Expired(slots[i], now) then slots[i].(used := false) else slots[i])
  }

  function Find(slots: seq<Slot>, key: FlowKey, i: nat): (r: nat)
    requires i <= |slots|
    ensures i <= r <= |slots| && (r < |slots| ==> slots[r].used && slots[r].key == key)
    ensures forall j :: i <= j < r ==> !(slots[j].used && slots[j].key == key)
    decreases |slots| - i
  {
    if i == |slots| || (slots[i].used && slots[i].key == key) then i else Find(slots, key, i + 1)
  }

  function FindUnused(slots: seq<Slot>, i: nat): (r: nat)
    requires i <= |slots|
    ensures i <= r <= |slots| && (r < |slots| ==> !slots[r].used) && forall j :: i <= j < r ==> slots[j].used
    decreases |slots| - i
  {
    if i == |slots| || !slots[i].used then i else FindUnused(slots, i + 1)
  }

  /** A slot for a new datagram: everything is cleared but the payload buffer. */
  function Cleared(s: Slot, key: FlowKey): Slot {
    Slot(true, s.available, false, 0, key, 0, [], [], s.payload)
  }

  function Splice(buffer: seq<Byte>, at: nat, data: seq<Byte>): (r: seq<Byte>)
    requires at + |data| <= |buffer|
    ensures |r| == |buffer|
  {
    buffer[..at] + data + buffer[at + |data|..]
  }

  function Store(s: Slot, f: Fragment, now: int): Slot
    requires |s.payload| == MAX_PAYLOAD && End(f) <= MAX_PAYLOAD
  {
    s.(header := if f.offset == 0 then f.header else s.header,
       payload := Splice(s.payload, f.offset, f.data),
       ranges := s.ranges + [Range(f.offset, End(f))],
       lastTick := now,
       haveLast := s.haveLast || !f.more,
       total := if !f.more then End(f) else s.total)
  }

  /** The header of the whole datagram: full length, no fragment fields, a new checksum. */
  function WholeHeader(header: seq<Byte>, total: nat): (r: seq<Byte>)
    requires |header| >= ETHERNET + 20 && |header| - ETHERNET + total <= MAX_PAYLOAD
    ensures |r| == |header|
  {
    var ip := header[ETHERNET..];
    header[..ETHERNET] + Checksum.Sealed(Checksum.PutWord(Checksum.PutWord(ip, 2, |ip| + total), 6, 0), 10)
  }

  function Finish(s: Slot): Option<Datagram>
    requires s.total <= |s.payload| && |s.header| >= ETHERNET + 20
  {
    if |s.header| - ETHERNET + s.total > MAX_PAYLOAD then None
    else Some(Datagram(s.key, WholeHeader(s.header, s.total), s.payload[..s.total]))
  }

  /** A reassembled header passes the receiver's check. */
  lemma WholeHeaderChecksOut(header: seq<Byte>, total: nat)
    requires |header| >= ETHERNET + 20 && |header| - ETHERNET + total <= MAX_PAYLOAD
    ensures Checksum.ChecksumOf(WholeHeader(header, total)[ETHERNET..]) == 0
  {
    hide Checksum.ChecksumOf, Checksum.Sealed, Checksum.PutWord;
    var ip := header[ETHERNET..];
    var w := Checksum.PutWord(Checksum.PutWord(ip, 2, |ip| + total), 6, 0);
    Checksum.SealedChecksOut(w, 10);
    assert WholeHeader(header, total)[ETHERNET..] == Checksum.Sealed(w, 10);
  }

  predicate Meets(rs: seq<Range>, f: Fragment) {
    exists i :: 0 <= i < |rs| && Overlaps(rs[i], f.offset, End(f))
  }

  /** Slots are sound, a stored header is a header, and no two live slots have the same key. */
  predicate Inv(slots: seq<Slot>) {
    && |slots| == SLOTS
    && (forall i :: 0 <= i < SLOTS ==> |slots[i].payload| == MAX_PAYLOAD)
    && (forall i :: 0 <= i < SLOTS && slots[i].used ==> SlotOk(slots[i]) && HeaderOk(slots[i]))
    && (forall i, j :: 0 <= i < j < SLOTS && slots[i].used && slots[j].used ==> slots[i].key != slots[j].key)
  }

  predicate HeaderOk(s: Slot) { s.header == [] || ETHERNET + 20 <= |s.header| <= ETHERNET + 60 }

  /** Slot i takes the fragment, and the datagram is delivered if that completes it. */
  function Accept(slots: seq<Slot>, i: nat, e: Event): (seq<Slot>, Option<Datagram>)
    requires i < |slots| && slots[i].used && SlotOk(slots[i]) && HeaderOk(slots[i])
    requires Received(e.fragment) && e.fragment.data != [] && End(e.fragment) <= MAX_PAYLOAD
  {
    var s, f := slots[i], e.fragment;
    if !s.available || |s.ranges| >= RANGES then (slots, None)
    else if Meets(s.ranges, f) then (slots[i := s.(used := false)], None)
    else
      StoreOk(s, f, e.stored);
      var t := Store(s, f, e.stored);
      if t.header != [] && Walk(t, 0) then
        (slots[i := t.(used := false)], if e.memory then Finish(t) else None)
      else (slots[i := t], None)
  }

  /** Where the fragment goes: its datagram's slot, or a cleared one, if there is one. */
  function Place(slots: seq<Slot>, key: FlowKey): (r: (seq<Slot>, nat))
    requires |slots| == SLOTS
    ensures |r.0| == SLOTS && r.1 <= SLOTS
  {
    var i := Find(slots, key, 0);
    if i < SLOTS then (slots, i)
    else
      var j := FindUnused(slots, 0);
      if j < SLOTS then (slots[j := Cleared(slots[j], key)], j) else (slots, SLOTS)
  }

  function Reassemble(slots: seq<Slot>, e: Event): (r: (seq<Slot>, Option<Datagram>))
    requires Inv(slots) && Received(e.fragment)
  {
    var f := e.fragment;
    if End(f) > MAX_PAYLOAD || f.data == [] then (slots, None)
    else
      var (placed, i) := Place(Expire(slots, e.now), f.key);
      if i == SLOTS then (placed, None)
      else
        PlaceKeepsInv(slots, e.now, f.key);
        Accept(placed, i, e)
  }

  lemma StoreOk(s: Slot, f: Fragment, now: int)
    requires SlotOk(s) && HeaderOk(s) && Received(f) && f.data != [] && End(f) <= MAX_PAYLOAD
    requires |s.ranges| < RANGES && !Meets(s.ranges, f)
    ensures SlotOk(Store(s, f, now)) && HeaderOk(Store(s, f, now))
  {
    var t := Store(s, f, now);
    assert t.ranges[|s.ranges|].end == End(f);
    if s.haveLast && f.more {
      var k :| 0 <= k < |s.ranges| && s.ranges[k].end == s.total;
      assert t.ranges[k].end == t.total;
    }
  }

  lemma PlaceKeepsInv(slots: seq<Slot>, now: int, key: FlowKey)
    requires Inv(slots)
    ensures var (placed, i) := Place(Expire(slots, now), key);
            Inv(placed) && (i < SLOTS ==> placed[i].used && placed[i].key == key)
  {
    var x := Expire(slots, now);
    assert Inv(x);
    var j := FindUnused(x, 0);
    if j < SLOTS {
      assert SlotOk(Cleared(x[j], key));
    }
  }

  /** Every step keeps the slots sound, whatever arrives and whenever. */
  lemma ReassembleKeepsInv(slots: seq<Slot>, e: Event)
    requires Inv(slots) && Received(e.fragment)
    ensures Inv(Reassemble(slots, e).0)
  {
    hide SlotOk, Expire, Place, Meets, Walk, Finish, Store, HeaderOk;
    var f := e.fragment;
    if End(f) <= MAX_PAYLOAD && f.data != [] {
      var (placed, i) := Place(Expire(slots, e.now), f.key);
      PlaceKeepsInv(slots, e.now, f.key);
      if i < SLOTS {
        AcceptKeepsInv(placed, i, e);
      }
    }
  }

  lemma AcceptKeepsInv(slots: seq<Slot>, i: nat, e: Event)
    requires Inv(slots) && i < SLOTS && slots[i].used
    requires Received(e.fragment) && e.fragment.data != [] && End(e.fragment) <= MAX_PAYLOAD
    ensures Inv(Accept(slots, i, e).0)
  {
    hide SlotOk, Meets, Walk, Finish, HeaderOk, Splice;
    var s, f := slots[i], e.fragment;
    if s.available && |s.ranges| < RANGES && !Meets(s.ranges, f) {
      StoreOk(s, f, e.stored);
    }
  }

  // ---- The slots, updated in place ----

  /** Walks the stored ranges from 0 on. */
  method IsComplete(s: Slot) returns (complete: bool)
    requires SlotOk(s)
    ensures complete <==> s.haveLast && forall b :: 0 <= b < s.total ==> Covered(s.ranges, b)
  {
    hide Covered;
    CompleteIff(s);
    var position: nat := 0;
    while true
      invariant position <= MAX_PAYLOAD && Walk(s, 0) == Walk(s, position)
      decreases MAX_PAYLOAD - position
    {
      var i := 0;
      while i < |s.ranges| && s.ranges[i].start != position
        invariant i <= |s.ranges| && StartingAt(s.ranges, position, 0) == StartingAt(s.ranges, position, i)
      {
        i := i + 1;
      }
      if i == |s.ranges| {
        return false;
      }
      position := s.ranges[i].end;
      if position == s.total {
        return s.haveLast;
      }
      if position > s.total {
        return false;
      }
    }
  }

  class Table {
    var slots: seq<Slot>

    ghost predicate Valid()
      reads this
    {
      Inv(slots)
    }

    constructor (buffers: seq<seq<Byte>>, available: seq<bool>)
      requires |buffers| == |available| == SLOTS && forall i :: 0 <= i < SLOTS ==> |buffers[i]| == MAX_PAYLOAD
      ensures Valid() && forall i :: 0 <= i < SLOTS ==> !slots[i].used && slots[i].available == available[i]
    {
      slots := seq(SLOTS, i requires 0 <= i < SLOTS =>
        Slot(false, available[i], false, 0, FlowKey(0, 0, 0, 0, 0), 0, [], [], buffers[i]));
    }

    method ExpireSlots(now: int)
      modifies this
      ensures slots == Expire(old(slots), now)
    {
      ghost var before := slots;
      for i := 0 to |slots|
        invariant |slots| == |before|
        invariant forall j :: 0 <= j < |slots| ==> slots[j] == if j < i then Expire(before, now)[j] else before[j]
      {
        if slots[i].used && (now - slots[i].lastTick) % TWO_32 >= TIMEOUT {
          slots := slots[i := slots[i].(used := false)];
        }
      }
    }

    method FindSlot(key: FlowKey) returns (i: nat)
      ensures i == Find(slots, key, 0)
    {
      i := 0;
      while i < |slots| && !(slots[i].used && slots[i].key == key)
        invariant i <= |slots| && Find(slots, key, 0) == Find(slots, key, i)
      {
        i := i + 1;
      }
    }

    /** Clears the first unused slot for a new datagram. */
    method NewSlot(key: FlowKey) returns (i: nat)
      modifies this
      ensures i == FindUnused(old(slots), 0)
      ensures slots == if i < |old(slots)| then old(slots)[i := Cleared(old(slots)[i], key)] else old(slots)
    {
      i := 0;
      while i < |slots| && slots[i].used
        invariant i <= |slots| && slots == old(slots) && FindUnused(slots, 0) == FindUnused(slots, i)
      {
        i := i + 1;
      }
      if i < |slots| {
        slots := slots[i := Cleared(slots[i], key)];
      }
    }

    method FindOverlap(rs: seq<Range>, f: Fragment) returns (found: bool)
      ensures found <==> Meets(rs, f)
    {
      for i := 0 to |rs|
        invariant forall j :: 0 <= j < i ==> !Overlaps(rs[j], f.offset, End(f))
      {
        if f.offset < rs[i].end && End(f) > rs[i].start {
          assert Overlaps(rs[i], f.offset, End(f));
          return true;
        }
      }
      found := false;
    }

    /** Takes one fragment; yields the datagram it completes, if any. */
    method Input(e: Event) returns (out: Option<Datagram>)
      requires Valid() && Received(e.fragment)
      modifies this
      ensures Valid() && (slots, out) == Reassemble(old(slots), e)
    {
      hide SlotOk, HeaderOk, Accept, Expire, Place;
      ReassembleKeepsInv(slots, e);
      var f := e.fragment;
      if End(f) > MAX_PAYLOAD || |f.data| == 0 {
        return None;
      }
      PlaceKeepsInv(slots, e.now, f.key);
      var i := PlaceFragment(e);
      if i == SLOTS {
        return None;
      }
      out := AcceptFragment(i, e);
    }

    method PlaceFragment(e: Event) returns (i: nat)
      requires |slots| == SLOTS
      modifies this
      ensures (slots, i) == Place(Expire(old(slots), e.now), e.fragment.key)
    {
      ExpireSlots(e.now);
      i := FindSlot(e.fragment.key);
      if i == |slots| {
        i := NewSlot(e.fragment.key);
      }
    }

    method AcceptFragment(i: nat, e: Event) returns (out: Option<Datagram>)
      requires Valid() && i < SLOTS && slots[i].used
      requires Received(e.fragment) && e.fragment.data != [] && End(e.fragment) <= MAX_PAYLOAD
      modifies this
      ensures (slots, out) == Accept(old(slots), i, e)
    {
      hide SlotOk, HeaderOk, Walk, WholeHeader, Meets, Splice, Covered;
      out := None;
      var f := e.fragment;
      if !slots[i].available || |slots[i].ranges| >= RANGES {
        return;
      }
      var overlap := FindOverlap(slots[i].ranges, f);
      if overlap {
        slots := slots[i := slots[i].(used := false)];
        return;
      }
      StoreOk(slots[i], f, e.stored);
      var t := Store(slots[i], f, e.stored);
      slots := slots[i := t];
      if t.header != [] {
        CompleteIff(t);
        var complete := IsComplete(t);
        if complete {
          FinishReady(t);
          if e.memory {
            out := Finish(t);
          }
          slots := slots[i := t.(used := false)];
          assert slots == old(slots)[i := t.(used := false)];
        }
      }
    }
  }

  lemma FinishReady(s: Slot)
    requires SlotOk(s) && HeaderOk(s) && s.header != []
    ensures s.total <= |s.payload| && |s.header| >= ETHERNET + 20
  {
  }
}
