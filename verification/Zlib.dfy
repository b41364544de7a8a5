/** A whole zlib stream: two header bytes, then blocks until the one marked final.

    `Block` is the reference grammar of blocks and `ExpandBlocks` their meaning. The
    checksum that ends a zlib stream is not looked at, so anything may follow the blocks. */
module Zlib {
  import opened Bits
  import opened Huffman
  import Deflate
  import DynamicHeader
  import BitReader

  datatype Block =
    | Stored(padding: seq<Bit>, bytes: seq<Byte>)
    | Fixed(tokens: seq<Deflate.Token>)
    | Dynamic(hlit: nat, hdist: nat, hclen: nat, codeLengths: seq<nat>, runs: seq<DynamicHeader.Run>,
              tokens: seq<Deflate.Token>)

  // ---- Fixed codes ----

  function FixedLiteral(): (ls: seq<nat>)
    ensures Valid(ls) && |ls| == 288 && Coded(ls, 0)
  {
    seq(288, i => if i < 144 then 8 else if i < 256 then 9 else if i < 280 then 7 else 8)
  }

  function FixedDistance(): (ls: seq<nat>)
    ensures Valid(ls) && |ls| == 32 && Coded(ls, 0)
  {
    seq(32, _ => 5)
  }

  lemma {:induction false} FixedLiteralSum(n: nat)
    requires n <= 288
    ensures KraftUpTo(FixedLiteral(), n)
            == if n <= 144 then 128 * n
               else if n <= 256 then 18432 + 64 * (n - 144)
               else if n <= 280 then 25600 + 256 * (n - 256)
               else 31744 + 128 * (n - 280)
  {
    assert Pow2(6) == 64 && Pow2(7) == 128 && Pow2(8) == 256;
    if n > 0 {
      FixedLiteralSum(n - 1);
    }
  }

  lemma {:induction false} FixedDistanceSum(n: nat)
    requires n <= 32
    ensures KraftUpTo(FixedDistance(), n) == 1024 * n
  {
    assert Pow2(10) == 1024;
    if n > 0 {
      FixedDistanceSum(n - 1);
    }
  }

  /** The fixed codes are complete: they use the code space exactly. */
  lemma FixedCodesComplete()
    ensures Kraft(FixedLiteral()) == FULL && Kraft(FixedDistance()) == FULL
  {
    hide FixedLiteral, FixedDistance, KraftUpTo;
    FixedLiteralSum(|FixedLiteral()|);
    FixedDistanceSum(|FixedDistance()|);
  }

  // ---- Grammar ----

  function AlignUp(pos: nat): (r: nat)
    ensures pos <= r < pos + 8 && r % 8 == 0
  {
    (pos + 7) / 8 * 8
  }

  /** Bit by bit, a and b are each other's complement. */
  predicate Complementary(a: nat, b: nat, n: nat)
    decreases n
  {
    n > 0 ==> a % 2 != b % 2 && Complementary(a / 2, b / 2, n - 1)
  }

  lemma {:induction false} ComplementaryIffSum(a: nat, b: nat, n: nat)
    requires a < Pow2(n) && b < Pow2(n)
    ensures Complementary(a, b, n) <==> a + b == Pow2(n) - 1
    decreases n
  {
    if n > 0 {
      ComplementaryIffSum(a / 2, b / 2, n - 1);
    }
  }

  function Lengths(b: Block): seq<nat>
    requires b.Dynamic? && DynamicHeader.LegalRuns([], b.runs)
  {
    DynamicHeader.ExpandRuns([], b.runs)
  }

  predicate LegalHeader(b: Block)
    requires b.Dynamic?
  {
    && 257 <= b.hlit <= 286 && 1 <= b.hdist <= 32 && 4 <= b.hclen <= 19
    && DynamicHeader.CodeLengths(b.codeLengths, b.hclen) && Valid(b.codeLengths)
    && DynamicHeader.RunsCoded(b.codeLengths, b.runs)
    && DynamicHeader.LegalRuns([], b.runs) && |Lengths(b)| == b.hlit + b.hdist && Valid(Lengths(b)[..b.hlit])
    && Valid(Lengths(b)[b.hlit..])
    && HasCode(b.codeLengths) && HasCode(Lengths(b)[..b.hlit]) && HasCode(Lengths(b)[b.hlit..])
  }

  predicate HasCode(ls: seq<nat>) {
    exists s :: 0 <= s < |ls| && ls[s] != 0
  }

  function LiteralLengths(b: Block): (ls: seq<nat>)
    requires !b.Stored? && (b.Dynamic? ==> LegalHeader(b))
    ensures Valid(ls)
  {
    if b.Fixed? then FixedLiteral() else Lengths(b)[..b.hlit]
  }

  function DistanceLengths(b: Block): (ls: seq<nat>)
    requires !b.Stored? && (b.Dynamic? ==> LegalHeader(b))
    ensures Valid(ls)
  {
    if b.Fixed? then FixedDistance() else Lengths(b)[b.hlit..]
  }

  /** The block, placed at bit `pos` after its three header bits, is well formed and fits the output. */
  predicate LegalBlock(b: Block, pos: nat, out: seq<Byte>, limit: nat) {
    if b.Stored? then
      pos + |b.padding| == AlignUp(pos) && |b.bytes| < 0x1_0000 && |out| + |b.bytes| <= limit
    else
      && (b.Dynamic? ==> LegalHeader(b))
      && Deflate.AllEncodable(LiteralLengths(b), DistanceLengths(b), b.tokens)
      && Deflate.AllFit(out, b.tokens, limit)
  }

  /** No table of the block is over-subscribed. */
  predicate Decodable(b: Block)
    requires b.Dynamic? ==> LegalHeader(b)
  {
    b.Dynamic? ==>
      && Kraft(b.codeLengths) <= FULL && Kraft(LiteralLengths(b)) <= FULL && Kraft(DistanceLengths(b)) <= FULL
  }

  function ExpandBlock(b: Block, pos: nat, out: seq<Byte>, limit: nat): (r: seq<Byte>)
    requires LegalBlock(b, pos, out, limit)
    ensures |out| <= limit ==> |r| <= limit
  {
    if b.Stored? then out + b.bytes else Deflate.Expand(out, b.tokens, limit)
  }

  function StoredBits(b: Block): seq<Bit>
    requires b.Stored? && |b.bytes| < 0x1_0000
  {
    b.padding + (LsbBits(|b.bytes|, 16) + (LsbBits(0xFFFF - |b.bytes|, 16) + Stream(b.bytes)))
  }

  function HeaderBits(b: Block): seq<Bit>
    requires b.Dynamic? && LegalHeader(b)
  {
    LsbBits(b.hlit - 257, 5) + (LsbBits(b.hdist - 1, 5) + (LsbBits(b.hclen - 4, 4) +
    (DynamicHeader.CodeLengthBits(b.codeLengths, b.hclen) + DynamicHeader.RunsBits(b.codeLengths, b.runs))))
  }

  function TokenPart(b: Block): seq<Bit>
    requires !b.Stored? && (b.Dynamic? ==> LegalHeader(b))
    requires Deflate.AllEncodable(LiteralLengths(b), DistanceLengths(b), b.tokens)
  {
    Deflate.TokensBits(LiteralLengths(b), DistanceLengths(b), b.tokens)
  }

  function BodyBits(b: Block, pos: nat, out: seq<Byte>, limit: nat): seq<Bit>
    requires LegalBlock(b, pos, out, limit)
  {
    match b
    case Stored(_, _) => StoredBits(b)
    case Fixed(_) => TokenPart(b)
    case Dynamic(_, _, _, _, _, _) => HeaderBits(b) + TokenPart(b)
  }

  function BlockType(b: Block): nat {
    match b
    case Stored(_, _) => 0
    case Fixed(_) => 1
    case Dynamic(_, _, _, _, _, _) => 2
  }

  function BlockBits(b: Block, final: Bit, pos: nat, out: seq<Byte>, limit: nat): (bs: seq<Bit>)
    requires LegalBlock(b, pos + 3, out, limit)
    ensures |bs| >= 3
  {
    [final] + (LsbBits(BlockType(b), 2) + BodyBits(b, pos + 3, out, limit))
  }

  predicate LegalBlocks(bs: seq<Block>, pos: nat, out: seq<Byte>, limit: nat)
    decreases |bs|
  {
    && bs != [] && LegalBlock(bs[0], pos + 3, out, limit)
    && (|bs| > 1 ==> LegalBlocks(bs[1..], pos + |BlockBits(bs[0], 0, pos, out, limit)|,
                                 ExpandBlock(bs[0], pos + 3, out, limit), limit))
  }

  predicate AllDecodable(bs: seq<Block>) {
    forall i :: 0 <= i < |bs| ==> (bs[i].Dynamic? ==> LegalHeader(bs[i])) && Decodable(bs[i])
  }

  /** The bits of the blocks in turn; only the last one is marked final. */
  function BlocksBits(bs: seq<Block>, pos: nat, out: seq<Byte>, limit: nat): seq<Bit>
    requires LegalBlocks(bs, pos, out, limit)
    decreases |bs|
  {
    hide LegalBlock, BodyBits, ExpandBlock;
    if |bs| == 1 then BlockBits(bs[0], 1, pos, out, limit)
    else
      var w := BlockBits(bs[0], 0, pos, out, limit);
      w + BlocksBits(bs[1..], pos + |w|, ExpandBlock(bs[0], pos + 3, out, limit), limit)
  }

  function ExpandBlocks(bs: seq<Block>, pos: nat, out: seq<Byte>, limit: nat): (r: seq<Byte>)
    requires LegalBlocks(bs, pos, out, limit)
    ensures |out| <= limit ==> |r| <= limit
    decreases |bs|
  {
    hide LegalBlock, BodyBits, ExpandBlock;
    var o := ExpandBlock(bs[0], pos + 3, out, limit);
    if |bs| == 1 then o
    else ExpandBlocks(bs[1..], pos + |BlockBits(bs[0], 0, pos, out, limit)|, o, limit)
  }

  // ---- What the decoder does ----

  lemma WholeBytes(p: nat)
    requires p % 8 == 0
    ensures 8 * ((p + 32) / 8) == p + 32
  {
  }

  function StoredAt(data: seq<Byte>, pos: nat, out: seq<Byte>, limit: nat): (r: Option<(nat, seq<Byte>)>)
    ensures r.Some? ==> pos <= r.value.0 <= 8 * |data|
  {
    var bits, p := Stream(data), AlignUp(pos);
    WholeBytes(p);
    if p + 32 > |bits| then None else
      var length, inverse := LsbValue(bits[p..p + 16]), LsbValue(bits[p + 16..p + 32]);
      var from := (p + 32) / 8;
      if !Complementary(length, inverse, 16) || |out| + length > limit || from + length > |data| then None
      else Some((p + 32 + 8 * length, out + data[from..from + length]))
  }

  /** The three tables a dynamic header describes, and where it ends. */
  function HeaderAt(bits: seq<Bit>, pos: nat): (r: Option<(nat, seq<nat>, seq<nat>)>)
    ensures r.Some? ==> pos <= r.value.0 <= |bits| && Valid(r.value.1) && Valid(r.value.2)
  {
    if pos + 14 > |bits| then None else
      var hlit := 257 + LsbValue(bits[pos..pos + 5]);
      var hdist := 1 + LsbValue(bits[pos + 5..pos + 10]);
      var hclen := 4 + FourBits(bits[pos + 10..pos + 14]);
      var p := pos + 14 + 3 * hclen;
      if hlit > 286 || hdist > 32 || p > |bits| then None else
        var cl := DynamicHeader.CodeLengthsAt(bits, pos + 14, hclen);
        if !Valid(cl) || !HasCode(cl) then None else
          match DynamicHeader.ReadLengths(bits, p, CanonicalTable(cl), [], hlit + hdist)
          case None => None
          case Some((q, lengths)) =>
            var ll, dl := lengths[..hlit], lengths[hlit..];
            if Valid(ll) && HasCode(ll) && Valid(dl) && HasCode(dl) then Some((q, ll, dl)) else None
  }

  function FourBits(bs: seq<Bit>): (v: nat)
    requires |bs| == 4
    ensures v == LsbValue(bs) && v <= 15
  {
    assert Pow2(4) == 16;
    LsbValue(bs)
  }

  /** The lengths of a coded block's two codes, and where its tokens start. */
  function LengthsAt(bits: seq<Bit>, pos: nat, kind: nat): (r: Option<(nat, seq<nat>, seq<nat>)>)
    ensures r.Some? ==> pos <= r.value.0 && Valid(r.value.1) && Valid(r.value.2)
  {
    if kind == 1 then Some((pos, FixedLiteral(), FixedDistance())) else HeaderAt(bits, pos)
  }

  function CodedAt(bits: seq<Bit>, pos: nat, kind: nat, out: seq<Byte>, limit: nat): (r: Option<(nat, seq<Byte>)>)
    ensures r.Some? ==> pos <= r.value.0 <= |bits|
  {
    match LengthsAt(bits, pos, kind)
    case None => None
    case Some((p, ll, dl)) => Deflate.Inflate(bits, p, CanonicalTable(ll), CanonicalTable(dl), out, limit)
  }

  /** One block after its final bit: where it ends and all that is written then. */
  function BlockAt(data: seq<Byte>, pos: nat, out: seq<Byte>, limit: nat): (r: Option<(nat, seq<Byte>)>)
    requires pos + 3 <= 8 * |data|
    ensures r.Some? ==> pos < r.value.0 <= 8 * |data|
  {
    var bits := Stream(data);
    var kind := LsbValue(bits[pos + 1..pos + 3]);
    if kind == 3 then None
    else if kind == 0 then StoredAt(data, pos + 3, out, limit)
    else CodedAt(bits, pos + 3, kind, out, limit)
  }

  function BlocksAt(data: seq<Byte>, pos: nat, out: seq<Byte>, limit: nat): Option<seq<Byte>>
    decreases 8 * |data| - pos
  {
    if pos + 3 > 8 * |data| then None else
      match BlockAt(data, pos, out, limit)
      case None => None
      case Some((p, o)) => if Stream(data)[pos] == 1 then Some(o) else BlocksAt(data, p, o, limit)
  }

  predicate HeaderOk(data: seq<Byte>) {
    |data| >= 6 && data[0] % 16 == 8 && (data[0] as int * 256 + data[1]) % 31 == 0
  }

  /** The decompressed bytes, if the stream is accepted and fills the output exactly. */
  function Decompress(data: seq<Byte>, size: nat): Option<seq<Byte>> {
    if !HeaderOk(data) then None else
      match BlocksAt(data, 16, [], size)
      case None => None
      case Some(out) => if |out| == size then Some(out) else None
  }

  // ---- The in-place decoder ----

  method CopyBytes(output: array<Byte>, written: nat, data: seq<Byte>, from: nat, length: nat)
    requires written + length <= output.Length && from + length <= |data|
    modifies output
    ensures output[..written + length] == old(output[..written]) + data[from..from + length]
  {
    ghost var before := output[..written];
    for i := 0 to length
      invariant output[..written + i] == before + data[from..from + i]
    {
      output[written + i] := data[from + i];
      assert output[..written + i + 1] == output[..written + i] + [data[from + i]];
    }
  }

  method InflateStored(reader: BitReader.Reader, output: array<Byte>, written: nat) returns (ok: bool, w: nat)
    requires reader.Valid() && written <= output.Length && reader.bit <= 8 * |reader.data|
    modifies reader, output
    ensures written <= w <= output.Length
    ensures var r := StoredAt(reader.data, old(reader.bit), old(output[..written]), output.Length);
            (ok <==> r.Some?) && (ok ==> r == Some((reader.bit, output[..w])))
  {
    hide Stream, LsbValue, Complementary, AlignUp;
    w := written;
    ghost var before := output[..written];
    reader.bit := AlignUp(reader.bit);
    var length, inverse;
    ok, length := reader.Read(16);
    if !ok {
      return;
    }
    ok, inverse := reader.Read(16);
    if !ok {
      return;
    }
    var from := reader.bit / 8;
    if !Complementary(length, inverse, 16) || length > output.Length - written
       || from > |reader.data| || length > |reader.data| - from {
      return false, w;
    }
    CopyBytes(output, written, reader.data, from, length);
    w := written + length;
    reader.bit := reader.bit + length * 8;
  }

  lemma HasCodeIff(ls: seq<nat>)
    ensures HasCode(ls) <==> exists s: nat :: Coded(ls, s)
  {
    if HasCode(ls) {
      var s :| 0 <= s < |ls| && ls[s] != 0;
      assert Coded(ls, s);
    }
  }

  /** Reads a dynamic header and builds the two tables it describes. */
  method ReadHeader(reader: BitReader.Reader) returns (ok: bool, lt: Table, dt: Table)
    requires reader.Valid() && reader.bit <= 8 * |reader.data|
    modifies reader
    ensures var r := HeaderAt(Stream(reader.data), old(reader.bit));
            (ok <==> r.Some?) &&
            (ok ==> reader.bit == r.value.0 && lt == CanonicalTable(r.value.1) && dt == CanonicalTable(r.value.2))
  {
    hide Stream, LsbValue, CanonicalTable, HasCode, Valid, DynamicHeader.CodeLengthsAt, DynamicHeader.ReadLengths;
    lt, dt := [], [];
    ghost var bits, pos := Stream(reader.data), reader.bit;
    var hlit, hdist, hclen;
    ok, hlit := reader.Read(5);
    if !ok { return; }
    ok, hdist := reader.Read(5);
    if !ok { return; }
    ok, hclen := reader.Read(4);
    if !ok { return; }
    ghost var four := FourBits(bits[pos + 10..pos + 14]);
    hlit, hdist, hclen := hlit + 257, hdist + 1, hclen + 4;
    if hlit > 286 || hdist > 32 {
      return false, lt, dt;
    }
    var codeLengths;
    ok, codeLengths := DynamicHeader.ReadCodeLengths(reader, hclen);
    if !ok { return; }
    var ct;
    HasCodeIff(codeLengths);
    ok, ct := Build(codeLengths);
    if !ok { return; }
    var lengths;
    ok, lengths := DynamicHeader.ReadAllLengths(reader, ct, hlit + hdist);
    if !ok { return; }
    HasCodeIff(lengths[..hlit]);
    HasCodeIff(lengths[hlit..]);
    ok, lt := Build(lengths[..hlit]);
    if !ok { return; }
    ok, dt := Build(lengths[hlit..]);
  }

  method InflateCoded(reader: BitReader.Reader, output: array<Byte>, written: nat, kind: nat) returns (ok: bool, w: nat)
    requires reader.Valid() && written <= output.Length && reader.bit <= 8 * |reader.data|
    modifies reader, output
    ensures written <= w <= output.Length
    ensures var r := CodedAt(Stream(reader.data), old(reader.bit), kind, old(output[..written]), output.Length);
            (ok <==> r.Some?) && (ok ==> r == Some((reader.bit, output[..w])))
  {
    hide Stream, CanonicalTable, HeaderAt, FixedLiteral, FixedDistance, Deflate.Inflate;
    w := written;
    var lt, dt;
    if kind == 1 {
      assert Coded(FixedLiteral(), 0) && Coded(FixedDistance(), 0);
      ok, lt := Build(FixedLiteral());
      ok, dt := Build(FixedDistance());
    } else {
      ok, lt, dt := ReadHeader(reader);
      if !ok { return; }
    }
    ok, w := Deflate.InflateBlock(reader, output, written, lt, dt);
  }

  /** Decompresses the whole buffer; succeeds only if the output is filled exactly. */
  method InflateZlib(data: seq<Byte>, output: array<Byte>) returns (ok: bool, written: nat)
    requires |data| < BitReader.MAX_SIZE
    modifies output
    ensures written <= output.Length
    ensures ok <==> Decompress(data, output.Length).Some?
    ensures ok ==> Decompress(data, output.Length) == Some(output[..])
  {
    hide Stream, StoredAt, CodedAt, LsbValue;
    written := 0;
    if |data| < 6 || data[0] % 16 != 8 || (data[0] as int * 256 + data[1]) % 31 != 0 {
      return false, 0;
    }
    var reader := new BitReader.Reader(data, 16);
    ghost var bits, want := Stream(data), BlocksAt(data, 16, [], output.Length);
    var final := 0;
    while final == 0
      invariant fresh(reader) && reader.data == data && written <= output.Length
      invariant reader.bit <= 8 * |data|
      invariant final == 0 ==> want == BlocksAt(data, reader.bit, output[..written], output.Length)
      invariant final != 0 ==> want == Some(output[..written])
      decreases final == 0, 8 * |data| - reader.bit
    {
      ghost var pos := reader.bit;
      var kind;
      ok, final := reader.Read(1);
      if !ok { return; }
      LsbOne(bits, pos, pos + 1);
      ok, kind := reader.Read(2);
      if !ok { return; }
      if kind == 3 {
        return false, written;
      }
      if kind == 0 {
        ok, written := InflateStored(reader, output, written);
      } else {
        ok, written := InflateCoded(reader, output, written, kind);
      }
      if !ok { return; }
    }
    ok := written == output.Length;
    assert output[..output.Length] == output[..];
  }
}
