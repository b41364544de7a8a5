/** The compressed data of one block: literals and back-references up to the end symbol.

    `Expand` is the reference meaning of a token sequence. A back-reference repeats the
    last `distance` bytes periodically, which also covers copies that overlap themselves. */
module Deflate {
  import opened Bits
  import opened Huffman
  import BitReader

  const END_OF_BLOCK: nat := 256

  const LENGTH_BASE: seq<nat> := [3, 4, 5, 6, 7, 8, 9, 10, 11, 13, 15, 17, 19, 23, 27, 31, 35, 43, 51, 59, 67, 83,
                                  99, 115, 131, 163, 195, 227, 258]
  const LENGTH_EXTRA: seq<nat> := [0, 0, 0, 0, 0, 0, 0, 0, 1, 1, 1, 1, 2, 2, 2, 2, 3, 3, 3, 3, 4, 4, 4, 4, 5, 5, 5, 5,
                                   0]
  const DISTANCE_BASE: seq<nat> := [1, 2, 3, 4, 5, 7, 9, 13, 17, 25, 33, 49, 65, 97, 129, 193, 257, 385, 513, 769,
                                    1025, 1537, 2049, 3073, 4097, 6145, 8193, 12289, 16385, 24577]
  const DISTANCE_EXTRA: seq<nat> := [0, 0, 0, 0, 1, 1, 2, 2, 3, 3, 4, 4, 5, 5, 6, 6, 7, 7, 8, 8, 9, 9, 10, 10, 11, 11,
                                     12, 12, 13, 13]

  function LengthBase(i: nat): (r: nat)
    requires i < 29
    ensures 3 <= r <= 258
  {
    LENGTH_BASE[i]
  }

  function LengthExtra(i: nat): (r: nat)
    requires i < 29
    ensures r <= 5
  {
    LENGTH_EXTRA[i]
  }

  function DistanceBase(i: nat): (r: nat)
    requires i < 30
    ensures 1 <= r <= 24577
  {
    DISTANCE_BASE[i]
  }

  function DistanceExtra(i: nat): (r: nat)
    requires i < 30
    ensures r <= 13
  {
    DISTANCE_EXTRA[i]
  }

  /** A literal byte, or a back-reference as it is coded: which length and distance symbol,
      and the value of the extra bits after each. */
  datatype Token =
    | Literal(b: Byte)
    | Match(lengthIndex: nat, lengthExtra: nat, distanceIndex: nat, distanceExtra: nat)

  predicate WellFormed(t: Token) {
    t.Match? ==>
      && t.lengthIndex < 29 && t.lengthExtra < Pow2(LengthExtra(t.lengthIndex))
      && t.distanceIndex < 30 && t.distanceExtra < Pow2(DistanceExtra(t.distanceIndex))
  }

  function MatchLength(t: Token): (r: nat)
    requires t.Match? && WellFormed(t)
    ensures r >= 3
  {
    LengthBase(t.lengthIndex) + t.lengthExtra
  }

  function MatchDistance(t: Token): (r: nat)
    requires t.Match? && WellFormed(t)
    ensures r >= 1
  {
    DistanceBase(t.distanceIndex) + t.distanceExtra
  }

  // ---- Meaning of tokens ----

  /** The last `distance` bytes, repeated for `length` bytes. */
  function Periodic(out: seq<Byte>, distance: nat, length: nat): (r: seq<Byte>)
    requires 1 <= distance <= |out|
    ensures |r| == length
  {
    seq(length, i requires 0 <= i < length => out[|out| - distance + i % distance])
  }

  /** The token refers only to bytes already written and stays within the output. */
  predicate Fits(out: seq<Byte>, t: Token, limit: nat)
    requires WellFormed(t)
  {
    match t
    case Literal(_) => |out| < limit
    case Match(_, _, _, _) => MatchDistance(t) <= |out| && |out| + MatchLength(t) <= limit
  }

  function Apply(out: seq<Byte>, t: Token, limit: nat): (r: seq<Byte>)
    requires WellFormed(t) && Fits(out, t, limit)
    ensures out <= r && |r| <= limit
  {
    match t
    case Literal(b) => out + [b]
    case Match(_, _, _, _) => out + Periodic(out, MatchDistance(t), MatchLength(t))
  }

  predicate AllFit(out: seq<Byte>, ts: seq<Token>, limit: nat)
    decreases |ts|
  {
    ts != [] ==>
      WellFormed(ts[0]) && Fits(out, ts[0], limit) && AllFit(Apply(out, ts[0], limit), ts[1..], limit)
  }

  function Expand(out: seq<Byte>, ts: seq<Token>, limit: nat): (r: seq<Byte>)
    requires AllFit(out, ts, limit)
    ensures out <= r && (|out| <= limit ==> |r| <= limit)
    decreases |ts|
  {
    if ts == [] then out else Expand(Apply(out, ts[0], limit), ts[1..], limit)
  }

  // ---- Coding of tokens ----

  predicate Encodable(ll: seq<nat>, dl: seq<nat>, t: Token) {
    WellFormed(t) &&
    match t
    case Literal(b) => Coded(ll, b)
    case Match(i, _, j, _) => Coded(ll, 257 + i) && Coded(dl, j)
  }

  function MatchTailBits(dl: seq<nat>, t: Token): seq<Bit>
    requires Valid(dl) && t.Match? && WellFormed(t) && Coded(dl, t.distanceIndex)
  {
    LsbBits(t.lengthExtra, LengthExtra(t.lengthIndex)) +
    (Codeword(dl, t.distanceIndex) + LsbBits(t.distanceExtra, DistanceExtra(t.distanceIndex)))
  }

  function TokenBits(ll: seq<nat>, dl: seq<nat>, t: Token): seq<Bit>
    requires Valid(ll) && Valid(dl) && Encodable(ll, dl, t)
  {
    match t
    case Literal(b) => Codeword(ll, b)
    case Match(i, _, _, _) => Codeword(ll, 257 + i) + MatchTailBits(dl, t)
  }

  predicate AllEncodable(ll: seq<nat>, dl: seq<nat>, ts: seq<Token>) {
    Coded(ll, END_OF_BLOCK) && forall i :: 0 <= i < |ts| ==> Encodable(ll, dl, ts[i])
  }

  /** The tokens one after the other, closed by the end symbol. */
  function TokensBits(ll: seq<nat>, dl: seq<nat>, ts: seq<Token>): seq<Bit>
    requires Valid(ll) && Valid(dl) && AllEncodable(ll, dl, ts)
  {
    if ts == [] then Codeword(ll, END_OF_BLOCK)
    else TokenBits(ll, dl, ts[0]) + TokensBits(ll, dl, ts[1..])
  }

  // ---- What the decoder does, step by step ----

  datatype Step = Bad | End(pos: nat) | More(pos: nat, out: seq<Byte>)

  /** The rest of a back-reference, after its length symbol. */
  function MatchAt(bits: seq<Bit>, pos: nat, i: nat, dt: Table, out: seq<Byte>, limit: nat): (r: Step)
    requires i < 29
    ensures r.End? ==> false
    ensures r.More? ==> pos < r.pos <= |bits|
  {
    var p := pos + LengthExtra(i);
    if p > |bits| then Bad else
      var length := LengthBase(i) + LsbValue(bits[pos..p]);
      match Decode(dt, bits, p)
      case None => Bad
      case Some((j, n)) =>
        if j >= 30 then Bad else
          var q := p + n;
          var end := q + DistanceExtra(j);
          if end > |bits| then Bad else
            var distance := DistanceBase(j) + LsbValue(bits[q..end]);
            if distance > |out| || |out| + length > limit then Bad
            else More(end, out + Periodic(out, distance, length))
  }

  function StepAt(bits: seq<Bit>, pos: nat, lt: Table, dt: Table, out: seq<Byte>, limit: nat): (r: Step)
    ensures r.More? ==> pos < r.pos <= |bits|
    ensures r.End? ==> pos < r.pos <= |bits|
  {
    match Decode(lt, bits, pos)
    case None => Bad
    case Some((symbol, n)) =>
      if symbol < 256 then if |out| >= limit then Bad else More(pos + n, out + [symbol])
      else if symbol == END_OF_BLOCK then End(pos + n)
      else if symbol <= 285 then MatchAt(bits, pos + n, symbol - 257, dt, out, limit)
      else Bad
  }

  /** Runs the decoder to the end symbol: where it stops and all that is written then. */
  function Inflate(bits: seq<Bit>, pos: nat, lt: Table, dt: Table, out: seq<Byte>, limit: nat)
    : (r: Option<(nat, seq<Byte>)>)
    ensures r.Some? ==> pos < r.value.0 <= |bits|
    decreases |bits| - pos
  {
    match StepAt(bits, pos, lt, dt, out, limit)
    case Bad => None
    case End(p) => Some((p, out))
    case More(p, o) => Inflate(bits, p, lt, dt, o, limit)
  }

  // ---- Every legal token stream is decoded to its meaning ----

  lemma ReadExtraBack(bits: seq<Bit>, pos: nat, v: nat, n: nat)
    requires v < Pow2(n) && StartsWith(bits, pos, LsbBits(v, n))
    ensures pos + n <= |bits| && LsbValue(bits[pos..pos + n]) == v
  {
    LsbRoundTrip(v, n);
  }

  lemma MatchRuns(bits: seq<Bit>, pos: nat, dt: Table, t: Token, n: nat, out: seq<Byte>, limit: nat, p: nat, q: nat,
                  end: nat)
    requires t.Match? && WellFormed(t) && Fits(out, t, limit)
    requires p == pos + LengthExtra(t.lengthIndex) && q == p + n && end == q + DistanceExtra(t.distanceIndex) <= |bits|
    requires Decode(dt, bits, p) == Some((t.distanceIndex, n))
    requires LsbValue(bits[pos..p]) == t.lengthExtra && LsbValue(bits[q..end]) == t.distanceExtra
    ensures MatchAt(bits, pos, t.lengthIndex, dt, out, limit) == More(end, Apply(out, t, limit))
  {
    hide Decode, LsbValue, Pow2, Periodic, LengthExtra, LengthBase, DistanceBase, DistanceExtra;
  }

  lemma MatchComplete(bits: seq<Bit>, pos: nat, dl: seq<nat>, t: Token, out: seq<Byte>, limit: nat)
    requires Valid(dl) && Kraft(dl) <= FULL
    requires t.Match? && WellFormed(t) && Coded(dl, t.distanceIndex) && Fits(out, t, limit)
    requires StartsWith(bits, pos, MatchTailBits(dl, t))
    ensures MatchAt(bits, pos, t.lengthIndex, CanonicalTable(dl), out, limit)
            == More(pos + |MatchTailBits(dl, t)|, Apply(out, t, limit))
  {
    hide Decode, CanonicalTable, Codeword, Kraft, LsbBits, LsbValue, Pow2, MatchAt, Apply, LengthExtra, DistanceExtra;
    var e, w, x := LsbBits(t.lengthExtra, LengthExtra(t.lengthIndex)), Codeword(dl, t.distanceIndex),
                   LsbBits(t.distanceExtra, DistanceExtra(t.distanceIndex));
    StartsWithSplit(bits, pos, e, w + x);
    StartsWithSplit(bits, pos + |e|, w, x);
    ReadExtraBack(bits, pos, t.lengthExtra, LengthExtra(t.lengthIndex));
    DecodeFinds(dl, t.distanceIndex, bits, pos + |e|);
    ReadExtraBack(bits, pos + |e| + |w|, t.distanceExtra, DistanceExtra(t.distanceIndex));
    MatchRuns(bits, pos, CanonicalTable(dl), t, |w|, out, limit, pos + |e|, pos + |e| + |w|, pos + |e| + |w| + |x|);
  }

  /** A length symbol leads to the rest of a back-reference. */
  lemma StepIsMatch(bits: seq<Bit>, pos: nat, lt: Table, dt: Table, i: nat, n: nat, out: seq<Byte>, limit: nat)
    requires i < 29 && Decode(lt, bits, pos) == Some((257 + i, n))
    ensures StepAt(bits, pos, lt, dt, out, limit) == MatchAt(bits, pos + n, i, dt, out, limit)
  {
    hide Decode, MatchAt;
  }

  lemma LiteralComplete(bits: seq<Bit>, pos: nat, ll: seq<nat>, dt: Table, b: Byte, out: seq<Byte>, limit: nat)
    requires Valid(ll) && Kraft(ll) <= FULL && Coded(ll, b) && |out| < limit
    requires StartsWith(bits, pos, Codeword(ll, b))
    ensures StepAt(bits, pos, CanonicalTable(ll), dt, out, limit) == More(pos + |Codeword(ll, b)|, out + [b])
  {
    hide Decode, CanonicalTable, Codeword, Kraft, StartsWith, MatchAt;
    DecodeFinds(ll, b, bits, pos);
  }

  lemma LiteralStep(bits: seq<Bit>, pos: nat, ll: seq<nat>, dl: seq<nat>, t: Token, out: seq<Byte>, limit: nat)
    requires Valid(ll) && Valid(dl) && Kraft(ll) <= FULL && Kraft(dl) <= FULL
    requires t.Literal? && Encodable(ll, dl, t) && Fits(out, t, limit)
    requires StartsWith(bits, pos, TokenBits(ll, dl, t))
    ensures StepAt(bits, pos, CanonicalTable(ll), CanonicalTable(dl), out, limit)
            == More(pos + |TokenBits(ll, dl, t)|, Apply(out, t, limit))
  {
    hide CanonicalTable, Codeword, Kraft, StepAt, StartsWith, Valid;
    LiteralComplete(bits, pos, ll, CanonicalTable(dl), t.b, out, limit);
  }

  lemma MatchStep(bits: seq<Bit>, pos: nat, ll: seq<nat>, dl: seq<nat>, t: Token, out: seq<Byte>, limit: nat)
    requires Valid(ll) && Valid(dl) && Kraft(ll) <= FULL && Kraft(dl) <= FULL
    requires t.Match? && Encodable(ll, dl, t) && Fits(out, t, limit)
    requires StartsWith(bits, pos, TokenBits(ll, dl, t))
    ensures StepAt(bits, pos, CanonicalTable(ll), CanonicalTable(dl), out, limit)
            == More(pos + |TokenBits(ll, dl, t)|, Apply(out, t, limit))
  {
    hide Decode, CanonicalTable, Codeword, Kraft, MatchAt, MatchTailBits, StepAt, StartsWith, Apply, Fits, Valid;
    var i := t.lengthIndex;
    var w := Codeword(ll, 257 + i);
    StartsWithSplit(bits, pos, w, MatchTailBits(dl, t));
    DecodeFinds(ll, 257 + i, bits, pos);
    StepIsMatch(bits, pos, CanonicalTable(ll), CanonicalTable(dl), i, |w|, out, limit);
    MatchComplete(bits, pos + |w|, dl, t, out, limit);
  }

  lemma StepComplete(bits: seq<Bit>, pos: nat, ll: seq<nat>, dl: seq<nat>, t: Token, out: seq<Byte>, limit: nat)
    requires Valid(ll) && Valid(dl) && Kraft(ll) <= FULL && Kraft(dl) <= FULL
    requires Encodable(ll, dl, t) && Fits(out, t, limit)
    requires StartsWith(bits, pos, TokenBits(ll, dl, t))
    ensures StepAt(bits, pos, CanonicalTable(ll), CanonicalTable(dl), out, limit)
            == More(pos + |TokenBits(ll, dl, t)|, Apply(out, t, limit))
  {
    hide CanonicalTable, Codeword, Kraft, StepAt, StartsWith, Apply, Fits, Valid, TokenBits;
    if t.Literal? {
      LiteralStep(bits, pos, ll, dl, t, out, limit);
    } else {
      MatchStep(bits, pos, ll, dl, t, out, limit);
    }
  }

  lemma EndComplete(bits: seq<Bit>, pos: nat, ll: seq<nat>, dt: Table, out: seq<Byte>, limit: nat)
    requires Valid(ll) && Kraft(ll) <= FULL && Coded(ll, END_OF_BLOCK)
    requires StartsWith(bits, pos, Codeword(ll, END_OF_BLOCK))
    ensures StepAt(bits, pos, CanonicalTable(ll), dt, out, limit) == End(pos + ll[END_OF_BLOCK])
  {
    hide Decode, CanonicalTable, Codeword, Kraft, MatchAt;
    DecodeFinds(ll, END_OF_BLOCK, bits, pos);
  }

  lemma {:induction false} InflateComplete(bits: seq<Bit>, pos: nat, ll: seq<nat>, dl: seq<nat>, ts: seq<Token>,
                                           out: seq<Byte>, limit: nat)
    requires Valid(ll) && Valid(dl) && Kraft(ll) <= FULL && Kraft(dl) <= FULL
    requires AllEncodable(ll, dl, ts) && AllFit(out, ts, limit)
    requires StartsWith(bits, pos, TokensBits(ll, dl, ts))
    ensures Inflate(bits, pos, CanonicalTable(ll), CanonicalTable(dl), out, limit)
            == Some((pos + |TokensBits(ll, dl, ts)|, Expand(out, ts, limit)))
    decreases |ts|
  {
    hide StepAt, CanonicalTable, Codeword, Kraft, TokenBits, Apply, StartsWith;
    if ts == [] {
      EndComplete(bits, pos, ll, CanonicalTable(dl), out, limit);
    } else {
      var w := TokenBits(ll, dl, ts[0]);
      StartsWithSplit(bits, pos, w, TokensBits(ll, dl, ts[1..]));
      StepComplete(bits, pos, ll, dl, ts[0], out, limit);
      InflateComplete(bits, pos + |w|, ll, dl, ts[1..], Apply(out, ts[0], limit), limit);
    }
  }

  // ---- Whatever is decoded is the meaning of a legal token stream ----

  /** The token that a decoded back-reference stands for, read off its bits. */
  lemma MatchFields(bits: seq<Bit>, pos: nat, i: nat, dt: Table, out: seq<Byte>, limit: nat) returns (t: Token, n: nat)
    requires i < 29 && MatchAt(bits, pos, i, dt, out, limit).More?
    ensures t.Match? && t.lengthIndex == i && WellFormed(t) && Fits(out, t, limit)
    ensures var p := pos + LengthExtra(i); var end := p + n + DistanceExtra(t.distanceIndex);
            && p <= |bits| && Decode(dt, bits, p) == Some((t.distanceIndex, n)) && end <= |bits|
            && t.lengthExtra == LsbValue(bits[pos..p]) && t.distanceExtra == LsbValue(bits[p + n..end])
            && MatchAt(bits, pos, i, dt, out, limit) == More(end, Apply(out, t, limit))
  {
    hide Decode, LsbValue, Periodic, LengthBase, LengthExtra, DistanceBase, DistanceExtra, Pow2;
    var p := pos + LengthExtra(i);
    var (j, m) := Decode(dt, bits, p).value;
    n := m;
    t := Match(i, LsbValue(bits[pos..p]), j, LsbValue(bits[p + n..p + n + DistanceExtra(j)]));
  }

  lemma MatchSound(bits: seq<Bit>, pos: nat, i: nat, dl: seq<nat>, out: seq<Byte>, limit: nat) returns (t: Token)
    requires Valid(dl) && i < 29 && MatchAt(bits, pos, i, CanonicalTable(dl), out, limit).More?
    ensures t.Match? && t.lengthIndex == i && WellFormed(t) && Coded(dl, t.distanceIndex) && Fits(out, t, limit)
    ensures StartsWith(bits, pos, MatchTailBits(dl, t))
    ensures MatchAt(bits, pos, i, CanonicalTable(dl), out, limit)
            == More(pos + |MatchTailBits(dl, t)|, Apply(out, t, limit))
  {
    hide Decode, CanonicalTable, Codeword, LsbBits, LsbValue, MatchAt, Apply, Fits, StartsWith, Valid;
    var n;
    t, n := MatchFields(bits, pos, i, CanonicalTable(dl), out, limit);
    var p := pos + LengthExtra(i);
    var end := p + n + DistanceExtra(t.distanceIndex);
    DecodeSound(dl, bits, p);
    LsbBitsOfValue(bits[pos..p]);
    LsbBitsOfValue(bits[p + n..end]);
    StartsWithSlice(bits, pos, p);
    StartsWithSlice(bits, p, p + n);
    StartsWithSlice(bits, p + n, end);
    StartsWithThree(bits, pos, bits[pos..p], bits[p..p + n], bits[p + n..end]);
  }

  lemma MatchStepSound(bits: seq<Bit>, pos: nat, ll: seq<nat>, dl: seq<nat>, i: nat, n: nat, out: seq<Byte>, limit: nat)
    returns (t: Token)
    requires Valid(ll) && Valid(dl) && i < 29 && Coded(ll, 257 + i) && n == |Codeword(ll, 257 + i)|
    requires StartsWith(bits, pos, Codeword(ll, 257 + i))
    requires MatchAt(bits, pos + n, i, CanonicalTable(dl), out, limit).More?
    ensures Encodable(ll, dl, t) && Fits(out, t, limit) && StartsWith(bits, pos, TokenBits(ll, dl, t))
    ensures MatchAt(bits, pos + n, i, CanonicalTable(dl), out, limit)
            == More(pos + |TokenBits(ll, dl, t)|, Apply(out, t, limit))
  {
    hide CanonicalTable, Codeword, MatchAt, MatchTailBits, Apply, Fits, StartsWith, Valid, WellFormed;
    t := MatchSound(bits, pos + n, i, dl, out, limit);
    StartsWithSplit(bits, pos, Codeword(ll, 257 + i), MatchTailBits(dl, t));
  }

  lemma StepSound(bits: seq<Bit>, pos: nat, ll: seq<nat>, dl: seq<nat>, out: seq<Byte>, limit: nat) returns (t: Token)
    requires Valid(ll) && Valid(dl)
    requires StepAt(bits, pos, CanonicalTable(ll), CanonicalTable(dl), out, limit).More?
    ensures Encodable(ll, dl, t) && Fits(out, t, limit) && StartsWith(bits, pos, TokenBits(ll, dl, t))
    ensures StepAt(bits, pos, CanonicalTable(ll), CanonicalTable(dl), out, limit)
            == More(pos + |TokenBits(ll, dl, t)|, Apply(out, t, limit))
  {
    hide Decode, CanonicalTable, Codeword, MatchAt, MatchTailBits, Periodic, StepAt, StartsWith, Valid;
    StepUnfolds(bits, pos, CanonicalTable(ll), CanonicalTable(dl), out, limit);
    var (symbol, n) := Decode(CanonicalTable(ll), bits, pos).value;
    DecodeSound(ll, bits, pos);
    StartsWithSlice(bits, pos, pos + n);
    if symbol < 256 {
      t := Literal(symbol);
    } else {
      t := MatchStepSound(bits, pos, ll, dl, symbol - 257, n, out, limit);
    }
  }

  lemma EndSound(bits: seq<Bit>, pos: nat, ll: seq<nat>, dt: Table, out: seq<Byte>, limit: nat)
    requires Valid(ll) && StepAt(bits, pos, CanonicalTable(ll), dt, out, limit).End?
    ensures Coded(ll, END_OF_BLOCK) && StartsWith(bits, pos, Codeword(ll, END_OF_BLOCK))
    ensures StepAt(bits, pos, CanonicalTable(ll), dt, out, limit) == End(pos + |Codeword(ll, END_OF_BLOCK)|)
  {
    hide Decode, CanonicalTable, Codeword, MatchAt;
    DecodeSound(ll, bits, pos);
  }

  lemma {:induction false} InflateSound(bits: seq<Bit>, pos: nat, ll: seq<nat>, dl: seq<nat>, out: seq<Byte>,
                                        limit: nat)
    returns (ts: seq<Token>)
    requires Valid(ll) && Valid(dl)
    requires Inflate(bits, pos, CanonicalTable(ll), CanonicalTable(dl), out, limit).Some?
    ensures AllEncodable(ll, dl, ts) && AllFit(out, ts, limit)
    ensures StartsWith(bits, pos, TokensBits(ll, dl, ts))
    ensures Inflate(bits, pos, CanonicalTable(ll), CanonicalTable(dl), out, limit)
            == Some((pos + |TokensBits(ll, dl, ts)|, Expand(out, ts, limit)))
    decreases |bits| - pos
  {
    hide Decode, CanonicalTable, Codeword, StepAt, TokenBits, Apply, Fits, StartsWith, Valid;
    var lt, dt := CanonicalTable(ll), CanonicalTable(dl);
    match StepAt(bits, pos, lt, dt, out, limit)
    case End(p) =>
      EndSound(bits, pos, ll, dt, out, limit);
      ts := [];
    case More(p, o) =>
      var t := StepSound(bits, pos, ll, dl, out, limit);
      var rest := InflateSound(bits, p, ll, dl, o, limit);
      ts := [t] + rest;
      assert ts[1..] == rest;
      StartsWithSplit(bits, pos, TokenBits(ll, dl, t), TokensBits(ll, dl, rest));
  }

  // ---- Every length and distance has a coding ----

  lemma LengthSpacing(i: nat)
    requires i < 28
    ensures LengthBase(i + 1) <= LengthBase(i) + Pow2(LengthExtra(i))
  {
    assert Pow2(0) == 1 && Pow2(1) == 2 && Pow2(2) == 4 && Pow2(3) == 8 && Pow2(4) == 16 && Pow2(5) == 32;
  }

  lemma DistanceSpacing(i: nat)
    requires i < 30
    ensures (if i == 29 then 32769 else DistanceBase(i + 1)) == DistanceBase(i) + Pow2(DistanceExtra(i))
  {
    assert Pow2(0) == 1 && Pow2(1) == 2 && Pow2(2) == 4 && Pow2(3) == 8 && Pow2(4) == 16 && Pow2(5) == 32;
    assert Pow2(6) == 64 && Pow2(7) == 128 && Pow2(8) == 256 && Pow2(9) == 512 && Pow2(10) == 1024;
    assert Pow2(11) == 2048 && Pow2(12) == 4096 && Pow2(13) == 8192;
  }

  lemma {:induction false} LengthCoding(length: nat, i: nat) returns (index: nat, extra: nat)
    requires i < 29 && LengthBase(i) <= length <= 258
    ensures index < 29 && extra < Pow2(LengthExtra(index)) && LengthBase(index) + extra == length
    decreases 29 - i
  {
    if i < 28 && LengthBase(i + 1) <= length {
      index, extra := LengthCoding(length, i + 1);
    } else {
      index, extra := i, length - LengthBase(i);
      if i < 28 {
        LengthSpacing(i);
      }
    }
  }

  lemma {:induction false} DistanceCoding(distance: nat, i: nat) returns (index: nat, extra: nat)
    requires i < 30 && DistanceBase(i) <= distance <= 32768
    ensures index < 30 && extra < Pow2(DistanceExtra(index)) && DistanceBase(index) + extra == distance
    decreases 30 - i
  {
    if i < 29 && DistanceBase(i + 1) <= distance {
      index, extra := DistanceCoding(distance, i + 1);
    } else {
      index, extra := i, distance - DistanceBase(i);
      DistanceSpacing(i);
    }
  }

  /** Every length from 3 to 258 with every distance from 1 to 32768 is some token. */
  lemma EveryMatchHasToken(length: nat, distance: nat) returns (t: Token)
    requires 3 <= length <= 258 && 1 <= distance <= 32768
    ensures t.Match? && WellFormed(t) && MatchLength(t) == length && MatchDistance(t) == distance
  {
    var i, x := LengthCoding(length, 0);
    var j, y := DistanceCoding(distance, 0);
    t := Match(i, x, j, y);
  }

  // ---- The in-place decoder ----

  lemma WrapStep(i: nat, d: nat)
    requires 1 <= d <= i
    ensures (i - d) % d == i % d
  {
    var q, r := i / d, i % d;
    Distribute(d, q, 1);
    DivUnique(i - d, d, q - 1, r);
  }

  lemma PeriodicNone(out: seq<Byte>, distance: nat)
    requires 1 <= distance <= |out|
    ensures out + Periodic(out, distance, 0) == out
  {
  }

  /** The next byte is the one `distance` bytes back, whether that was there or has just been written. */
  lemma PeriodicNext(out: seq<Byte>, distance: nat, i: nat)
    requires 1 <= distance <= |out|
    ensures var done := out + Periodic(out, distance, i);
            done + [done[|out| - distance + i]] == out + Periodic(out, distance, i + 1)
  {
    var p, q := Periodic(out, distance, i), Periodic(out, distance, i + 1);
    var done := out + p;
    if i >= distance {
      WrapStep(i, distance);
      assert done[|out| - distance + i] == p[i - distance];
    } else {
      DivUnique(i, distance, 0, i);
      assert done[|out| - distance + i] == out[|out| - distance + i];
    }
    assert q == p + [q[i]];
  }

  /** Copies byte by byte, so that a copy longer than its distance re-reads what it wrote. */
  method CopyMatch(output: array<Byte>, written: nat, distance: nat, length: nat)
    requires 1 <= distance <= written && written + length <= output.Length
    modifies output
    ensures output[..written + length] == old(output[..written]) + Periodic(old(output[..written]), distance, length)
    ensures output[written + length..] == old(output[written + length..])
  {
    hide Periodic;
    ghost var before, after := output[..written], output[written + length..];
    PeriodicNone(before, distance);
    for i := 0 to length
      invariant output[..written + i] == before + Periodic(before, distance, i)
      invariant output[written + length..] == after
    {
      ghost var done := output[..written + i];
      PeriodicNext(before, distance, i);
      assert output[written - distance + i] == done[written - distance + i];
      output[written + i] := output[written - distance + i];
      assert output[..written + i + 1] == done + [output[written + i]];
    }
  }

  /** Reads length and distance of one back-reference and copies it. */
  method InflateMatch(reader: BitReader.Reader, output: array<Byte>, written: nat, dt: Table, i: nat)
    returns (ok: bool, w: nat)
    requires reader.Valid() && written <= output.Length && i < 29
    modifies reader, output
    ensures written <= w <= output.Length
    ensures var r := MatchAt(Stream(reader.data), old(reader.bit), i, dt, old(output[..written]), output.Length);
            (ok <==> r.More?) && (ok ==> r == More(reader.bit, output[..w]))
    ensures output[..written] == old(output[..written]) && output[w..] == old(output[w..])
  {
    hide Stream, LsbValue, Decode, LengthBase, LengthExtra, DistanceBase, DistanceExtra, Periodic;
    w := written;
    ghost var bits, pos, before := Stream(reader.data), reader.bit, output[..written];
    var extra;
    ok, extra := reader.Read(LengthExtra(i));
    if !ok {
      return;
    }
    var length := LengthBase(i) + extra;
    var symbol := Read(reader, dt);
    if symbol < 0 || symbol >= 30 {
      return false, w;
    }
    ok, extra := reader.Read(DistanceExtra(symbol));
    if !ok {
      return;
    }
    var distance := DistanceBase(symbol) + extra;
    if distance > written || length > output.Length - written {
      return false, w;
    }
    CopyMatch(output, written, distance, length);
    w := written + length;
    assert output[..w][..written] == output[..written];
  }

  /** One step of the decoder, and what is left to do after it. */
  lemma InflateUnfolds(bits: seq<Bit>, pos: nat, lt: Table, dt: Table, out: seq<Byte>, limit: nat)
    ensures Inflate(bits, pos, lt, dt, out, limit)
         == match StepAt(bits, pos, lt, dt, out, limit)
            case Bad => None
            case End(p) => Some((p, out))
            case More(p, o) => Inflate(bits, p, lt, dt, o, limit)
  {
    hide StepAt;
  }

  lemma StepUnfolds(bits: seq<Bit>, pos: nat, lt: Table, dt: Table, out: seq<Byte>, limit: nat)
    ensures StepAt(bits, pos, lt, dt, out, limit)
         == match Decode(lt, bits, pos)
            case None => Bad
            case Some((symbol, n)) =>
              if symbol < 256 then if |out| >= limit then Bad else More(pos + n, out + [symbol])
              else if symbol == END_OF_BLOCK then End(pos + n)
              else if symbol <= 285 then MatchAt(bits, pos + n, symbol - 257, dt, out, limit)
              else Bad
  {
    hide Decode, MatchAt;
  }

  /** Between the two states only the stretch from `written` to w may differ. */
  ghost predicate Kept(a: seq<Byte>, b: seq<Byte>, written: nat, w: nat) {
    |a| == |b| && written <= w <= |a| && a[..written] == b[..written] && a[w..] == b[w..]
  }

  lemma KeptOn(a: seq<Byte>, b: seq<Byte>, c: seq<Byte>, written: nat, v: nat, w: nat)
    requires Kept(a, b, written, v) && |c| == |b| && v <= w <= |c| && b[..v] == c[..v] && b[w..] == c[w..]
    ensures Kept(a, c, written, w)
  {
    assert b[..written] == b[..v][..written] && c[..written] == c[..v][..written];
    assert a[w..] == a[v..][w - v..] && b[w..] == b[v..][w - v..];
  }

  /** Decodes up to the end symbol into the output buffer, from `written` on. */
  method InflateBlock(reader: BitReader.Reader, output: array<Byte>, written: nat, lt: Table, dt: Table)
    returns (ok: bool, w: nat)
    requires reader.Valid() && written <= output.Length
    modifies reader, output
    ensures written <= w <= output.Length
    ensures var r := Inflate(Stream(reader.data), old(reader.bit), lt, dt, old(output[..written]), output.Length);
            (ok <==> r.Some?) && (ok ==> r == Some((reader.bit, output[..w])))
    ensures output[..written] == old(output[..written]) && output[w..] == old(output[w..])
  {
    hide Stream, MatchAt, Decode, Inflate, StepAt;
    w := written;
    ghost var bits, want := Stream(reader.data),
      Inflate(Stream(reader.data), reader.bit, lt, dt, output[..written], output.Length);
    ghost var was := output[..];
    while true
      invariant written <= w <= output.Length
      invariant Kept(was, output[..], written, w)
      invariant want == Inflate(bits, reader.bit, lt, dt, output[..w], output.Length)
      decreases |bits| - reader.bit
    {
      ghost var pos, out, mid, at := reader.bit, output[..w], output[..], w;
      InflateUnfolds(bits, pos, lt, dt, out, output.Length);
      StepUnfolds(bits, pos, lt, dt, out, output.Length);
      var symbol := Read(reader, lt);
      if symbol < 0 {
        return false, w;
      } else if symbol < 256 {
        if w >= output.Length {
          return false, w;
        }
        output[w] := symbol;
        w := w + 1;
        assert output[..w] == out + [symbol];
      } else if symbol == END_OF_BLOCK {
        return true, w;
      } else if symbol <= 285 {
        ok, w := InflateMatch(reader, output, w, dt, symbol - 257);
      } else {
        return false, w;
      }
      KeptOn(was, mid, output[..], written, at, w);
      if symbol > 256 && !ok {
        return;
      }
    }
  }
}
