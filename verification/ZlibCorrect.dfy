/** The decoder accepts every legal stream with its meaning, and nothing else. */
module ZlibCorrect {
  import opened Bits
  import opened Huffman
  import opened Zlib
  import Deflate
  import DynamicHeader

  // ---- Stored blocks ----

  lemma SixteenBits(v: nat)
    requires v < 0x1_0000
    ensures v < Pow2(16) == 0x1_0000
  {
    Pow2Values();
  }

  lemma BytesBack(data: seq<Byte>, from: nat, bytes: seq<Byte>)
    requires StartsWith(Stream(data), 8 * from, Stream(bytes))
    ensures from + |bytes| <= |data| && data[from..from + |bytes|] == bytes
  {
    hide Stream;
    StreamBytes(data, from, |bytes|, 8 * from, 8 * from + 8 * |bytes|);
    StreamInjective(data[from..from + |bytes|], bytes);
  }

  lemma StoredComplete(data: seq<Byte>, pos: nat, b: Block, out: seq<Byte>, limit: nat)
    requires b.Stored? && LegalBlock(b, pos, out, limit)
    requires StartsWith(Stream(data), pos, StoredBits(b))
    ensures StoredAt(data, pos, out, limit) == Some((pos + |StoredBits(b)|, out + b.bytes))
  {
    hide Stream, LsbValue, LsbBits, StartsWith, Complementary;
    var bits, n := Stream(data), |b.bytes|;
    var p := AlignUp(pos);
    var x, y, z := LsbBits(n, 16), LsbBits(0xFFFF - n, 16), Stream(b.bytes);
    StartsWithSplit(bits, pos, b.padding, x + (y + z));
    StartsWithSplit(bits, p, x, y + z);
    StartsWithSplit(bits, p + 16, y, z);
    SixteenBits(n);
    SixteenBits(0xFFFF - n);
    Deflate.ReadExtraBack(bits, p, n, 16);
    Deflate.ReadExtraBack(bits, p + 16, 0xFFFF - n, 16);
    ComplementaryIffSum(n, 0xFFFF - n, 16);
    BytesBack(data, (p + 32) / 8, b.bytes);
  }

  /** What the bits of a decoded stored block say. */
  lemma StoredFields(data: seq<Byte>, pos: nat, out: seq<Byte>, limit: nat) returns (length: nat, p: nat, from: nat)
    requires StoredAt(data, pos, out, limit).Some?
    ensures p == AlignUp(pos) && p + 32 == 8 * from && from + length <= |data| && |out| + length <= limit
    ensures |Stream(data)| == 8 * |data| && length < 0x1_0000
    ensures LsbValue(Stream(data)[p..p + 16]) == length && LsbValue(Stream(data)[p + 16..p + 32]) == 0xFFFF - length
    ensures StoredAt(data, pos, out, limit) == Some((p + 32 + 8 * length, out + data[from..from + length]))
  {
    hide Stream, LsbValue, Complementary, AlignUp;
    p := AlignUp(pos);
    from := (p + 32) / 8;
    var bits := Stream(data);
    length := LsbValue(bits[p..p + 16]);
    Pow2Values();
    ComplementaryIffSum(length, LsbValue(bits[p + 16..p + 32]), 16);
  }

  lemma StoredSound(data: seq<Byte>, pos: nat, out: seq<Byte>, limit: nat) returns (b: Block)
    requires StoredAt(data, pos, out, limit).Some?
    ensures b.Stored? && LegalBlock(b, pos, out, limit)
    ensures StartsWith(Stream(data), pos, StoredBits(b))
    ensures StoredAt(data, pos, out, limit) == Some((pos + |StoredBits(b)|, out + b.bytes))
  {
    hide Stream, LsbValue, LsbBits, StoredAt, StartsWith, AlignUp;
    var length, p, from := StoredFields(data, pos, out, limit);
    var bits := Stream(data);
    b := Stored(bits[pos..p], data[from..from + length]);
    var u, v := bits[p..p + 16], bits[p + 16..p + 32];
    LsbBitsOfValue(u);
    LsbBitsOfValue(v);
    StreamBytes(data, from, length, p + 32, p + 32 + 8 * length);
    var w := Stream(b.bytes);
    StartsWithSlice(bits, pos, p);
    StartsWithSlice(bits, p, p + 16);
    StartsWithSlice(bits, p + 16, p + 32);
    StartsWithSlice(bits, p + 32, p + 32 + 8 * length);
    StartsWithThree(bits, p, u, v, w);
    StartsWithSplit(bits, pos, b.padding, u + (v + w));
  }

  // ---- Dynamic headers ----

  lemma HeaderFields(bits: seq<Bit>, pos: nat, b: Block)
    requires b.Dynamic? && LegalHeader(b) && StartsWith(bits, pos, HeaderBits(b))
    ensures pos + 14 <= |bits|
    ensures LsbValue(bits[pos..pos + 5]) == b.hlit - 257
    ensures LsbValue(bits[pos + 5..pos + 10]) == b.hdist - 1
    ensures LsbValue(bits[pos + 10..pos + 14]) == b.hclen - 4
    ensures StartsWith(bits, pos + 14, DynamicHeader.CodeLengthBits(b.codeLengths, b.hclen))
    ensures StartsWith(bits, pos + 14 + 3 * b.hclen, DynamicHeader.RunsBits(b.codeLengths, b.runs))
    ensures |HeaderBits(b)| == 14 + 3 * b.hclen + |DynamicHeader.RunsBits(b.codeLengths, b.runs)|
  {
    hide LsbValue, LsbBits, StartsWith, DynamicHeader.CodeLengthBits, DynamicHeader.RunsBits;
    var x, y, z := LsbBits(b.hlit - 257, 5), LsbBits(b.hdist - 1, 5), LsbBits(b.hclen - 4, 4);
    var c, r := DynamicHeader.CodeLengthBits(b.codeLengths, b.hclen), DynamicHeader.RunsBits(b.codeLengths, b.runs);
    StartsWithSplit(bits, pos, x, y + (z + (c + r)));
    StartsWithSplit(bits, pos + 5, y, z + (c + r));
    StartsWithSplit(bits, pos + 10, z, c + r);
    StartsWithSplit(bits, pos + 14, c, r);
    assert Pow2(4) == 16 && Pow2(5) == 32;
    Deflate.ReadExtraBack(bits, pos, b.hlit - 257, 5);
    Deflate.ReadExtraBack(bits, pos + 5, b.hdist - 1, 5);
    Deflate.ReadExtraBack(bits, pos + 10, b.hclen - 4, 4);
  }

  lemma HeaderComplete(bits: seq<Bit>, pos: nat, b: Block)
    requires b.Dynamic? && LegalHeader(b) && Decodable(b) && StartsWith(bits, pos, HeaderBits(b))
    ensures HeaderAt(bits, pos) == Some((pos + |HeaderBits(b)|, LiteralLengths(b), DistanceLengths(b)))
  {
    hide LsbValue, HeaderBits, Valid, HasCode, Kraft, CanonicalTable, DynamicHeader.CodeLengthsAt,
         DynamicHeader.CodeLengths;
    hide DynamicHeader.ReadLengths, DynamicHeader.LegalRuns, DynamicHeader.ExpandRuns, DynamicHeader.CodeLengthBits;
    hide DynamicHeader.RunsBits, DynamicHeader.RunsCoded;
    HeaderFields(bits, pos, b);
    DynamicHeader.CodeLengthsComplete(bits, pos + 14, b.codeLengths, b.hclen);
    DynamicHeader.RunsComplete(bits, pos + 14 + 3 * b.hclen, b.codeLengths, b.runs, [], b.hlit + b.hdist);
  }

  lemma HeaderSound(bits: seq<Bit>, pos: nat, tokens: seq<Deflate.Token>) returns (b: Block)
    requires HeaderAt(bits, pos).Some?
    ensures b.Dynamic? && b.tokens == tokens && LegalHeader(b) && StartsWith(bits, pos, HeaderBits(b))
    ensures HeaderAt(bits, pos) == Some((pos + |HeaderBits(b)|, LiteralLengths(b), DistanceLengths(b)))
  {
    hide LsbValue, LsbBits, Valid, HasCode, CanonicalTable, DynamicHeader.CodeLengthsAt, DynamicHeader.CodeLengths;
    hide DynamicHeader.ReadLengths, DynamicHeader.LegalRuns, DynamicHeader.ExpandRuns, DynamicHeader.CodeLengthBits;
    hide DynamicHeader.RunsBits, DynamicHeader.RunsCoded;
    var u, v, w := bits[pos..pos + 5], bits[pos + 5..pos + 10], bits[pos + 10..pos + 14];
    var hlit, hdist, hclen := 257 + LsbValue(u), 1 + LsbValue(v), 4 + FourBits(w);
    var cl := DynamicHeader.CodeLengthsAt(bits, pos + 14, hclen);
    var p := pos + 14 + 3 * hclen;
    DynamicHeader.CodeLengthsSound(bits, pos + 14, hclen);
    var runs := DynamicHeader.RunsSound(bits, p, cl, [], hlit + hdist);
    b := Dynamic(hlit, hdist, hclen, cl, runs, tokens);
    HeaderBitsSound(bits, pos, b);
  }

  lemma HeaderBitsSound(bits: seq<Bit>, pos: nat, b: Block)
    requires b.Dynamic? && LegalHeader(b) && pos + 14 <= |bits|
    requires LsbValue(bits[pos..pos + 5]) == b.hlit - 257
    requires LsbValue(bits[pos + 5..pos + 10]) == b.hdist - 1
    requires LsbValue(bits[pos + 10..pos + 14]) == b.hclen - 4
    requires StartsWith(bits, pos + 14, DynamicHeader.CodeLengthBits(b.codeLengths, b.hclen))
    requires StartsWith(bits, pos + 14 + 3 * b.hclen, DynamicHeader.RunsBits(b.codeLengths, b.runs))
    ensures StartsWith(bits, pos, HeaderBits(b))
    ensures |HeaderBits(b)| == 14 + 3 * b.hclen + |DynamicHeader.RunsBits(b.codeLengths, b.runs)|
  {
    hide LsbValue, LsbBits, DynamicHeader.CodeLengthBits, DynamicHeader.RunsBits;
    var x, y, z := LsbBits(b.hlit - 257, 5), LsbBits(b.hdist - 1, 5), LsbBits(b.hclen - 4, 4);
    var c, r := DynamicHeader.CodeLengthBits(b.codeLengths, b.hclen), DynamicHeader.RunsBits(b.codeLengths, b.runs);
    LsbBitsOfValue(bits[pos..pos + 5]);
    LsbBitsOfValue(bits[pos + 5..pos + 10]);
    LsbBitsOfValue(bits[pos + 10..pos + 14]);
    StartsWithSplit(bits, pos + 14, c, r);
    StartsWithSplit(bits, pos + 10, z, c + r);
    StartsWithSplit(bits, pos + 5, y, z + (c + r));
    StartsWithSplit(bits, pos, x, y + (z + (c + r)));
  }

  // ---- One block ----

  lemma CodedComplete(bits: seq<Bit>, pos: nat, b: Block, out: seq<Byte>, limit: nat)
    requires !b.Stored? && LegalBlock(b, pos, out, limit) && Decodable(b)
    requires StartsWith(bits, pos, BodyBits(b, pos, out, limit))
    ensures CodedAt(bits, pos, BlockType(b), out, limit)
            == Some((pos + |BodyBits(b, pos, out, limit)|, ExpandBlock(b, pos, out, limit)))
  {
    hide Kraft, CanonicalTable, HeaderAt, HeaderBits, LegalHeader, StartsWith, Deflate.Inflate, Deflate.AllFit;
    hide Deflate.AllEncodable, Deflate.TokensBits, Deflate.Expand, LiteralLengths, DistanceLengths, FixedLiteral,
         FixedDistance;
    var ll, dl := LiteralLengths(b), DistanceLengths(b);
    if b.Fixed? {
      FixedTables(b);
      FixedCodesComplete();
      Deflate.InflateComplete(bits, pos, ll, dl, b.tokens, out, limit);
    } else {
      var h := HeaderBits(b);
      StartsWithSplit(bits, pos, h, TokenPart(b));
      HeaderComplete(bits, pos, b);
      Deflate.InflateComplete(bits, pos + |h|, ll, dl, b.tokens, out, limit);
    }
  }

  lemma FixedTables(b: Block)
    requires b.Fixed?
    ensures LiteralLengths(b) == FixedLiteral() && DistanceLengths(b) == FixedDistance()
  {
    hide FixedLiteral, FixedDistance;
  }

  lemma CodedSound(bits: seq<Bit>, pos: nat, kind: nat, out: seq<Byte>, limit: nat) returns (b: Block)
    requires 1 <= kind <= 2 && CodedAt(bits, pos, kind, out, limit).Some?
    ensures !b.Stored? && BlockType(b) == kind && LegalBlock(b, pos, out, limit)
    ensures StartsWith(bits, pos, BodyBits(b, pos, out, limit))
    ensures CodedAt(bits, pos, kind, out, limit)
            == Some((pos + |BodyBits(b, pos, out, limit)|, ExpandBlock(b, pos, out, limit)))
  {
    hide CanonicalTable, HeaderAt, HeaderBits, LegalHeader, Deflate.Inflate, Deflate.AllFit, StartsWith;
    hide Deflate.AllEncodable, Deflate.TokensBits, Deflate.Expand, LiteralLengths, DistanceLengths, FixedLiteral,
         FixedDistance;
    if kind == 1 {
      var ts := Deflate.InflateSound(bits, pos, FixedLiteral(), FixedDistance(), out, limit);
      b := Fixed(ts);
      FixedTables(b);
    } else {
      var (p, ll, dl) := HeaderAt(bits, pos).value;
      var ts := Deflate.InflateSound(bits, p, ll, dl, out, limit);
      b := HeaderSound(bits, pos, ts);
      StartsWithSplit(bits, pos, HeaderBits(b), TokenPart(b));
    }
  }

  lemma BlockHead(bits: seq<Bit>, pos: nat, b: Block, final: Bit, out: seq<Byte>, limit: nat)
    requires LegalBlock(b, pos + 3, out, limit)
    ensures StartsWith(bits, pos, BlockBits(b, final, pos, out, limit))
            <==> pos + 3 <= |bits| && bits[pos] == final && LsbValue(bits[pos + 1..pos + 3]) == BlockType(b)
                 && StartsWith(bits, pos + 3, BodyBits(b, pos + 3, out, limit))
  {
    hide LegalBlock, BodyBits, LsbValue, LsbBits;
    var k, body := LsbBits(BlockType(b), 2), BodyBits(b, pos + 3, out, limit);
    StartsWithSplit(bits, pos, [final], k + body);
    StartsWithSplit(bits, pos + 1, k, body);
    assert Pow2(2) == 4;
    if pos + 3 <= |bits| {
      var w := bits[pos + 1..pos + 3];
      LsbBitsOfValue(w);
      LsbRoundTrip(BlockType(b), 2);
      assert bits[pos..pos + 1] == [bits[pos]];
    }
  }

  lemma BlockComplete(data: seq<Byte>, pos: nat, b: Block, final: Bit, out: seq<Byte>, limit: nat)
    requires LegalBlock(b, pos + 3, out, limit) && Decodable(b)
    requires StartsWith(Stream(data), pos, BlockBits(b, final, pos, out, limit))
    ensures pos + 3 <= 8 * |data| && Stream(data)[pos] == final
    ensures BlockAt(data, pos, out, limit)
            == Some((pos + |BlockBits(b, final, pos, out, limit)|, ExpandBlock(b, pos + 3, out, limit)))
  {
    hide Stream, LsbValue, CodedAt, StoredAt, StoredBits, TokenPart, HeaderBits, Decodable, StartsWith, Deflate.Expand;
    hide LegalHeader;
    BlockHead(Stream(data), pos, b, final, out, limit);
    if b.Stored? {
      StoredComplete(data, pos + 3, b, out, limit);
    } else {
      CodedComplete(Stream(data), pos + 3, b, out, limit);
    }
  }

  lemma BlockSound(data: seq<Byte>, pos: nat, out: seq<Byte>, limit: nat) returns (b: Block)
    requires pos + 3 <= 8 * |data| && BlockAt(data, pos, out, limit).Some?
    ensures LegalBlock(b, pos + 3, out, limit)
    ensures StartsWith(Stream(data), pos, BlockBits(b, Stream(data)[pos], pos, out, limit))
    ensures BlockAt(data, pos, out, limit)
            == Some((pos + |BlockBits(b, Stream(data)[pos], pos, out, limit)|, ExpandBlock(b, pos + 3, out, limit)))
  {
    hide Stream, LsbValue, CodedAt, StoredAt, StoredBits, TokenPart, HeaderBits, LegalHeader, StartsWith,
         Deflate.Expand;
    var bits := Stream(data);
    var kind := LsbValue(bits[pos + 1..pos + 3]);
    assert Pow2(2) == 4;
    if kind == 0 {
      b := StoredSound(data, pos + 3, out, limit);
    } else {
      b := CodedSound(bits, pos + 3, kind, out, limit);
    }
    BlockHead(bits, pos, b, bits[pos], out, limit);
  }

  // ---- Whole streams ----

  lemma {:induction false} BlocksComplete(data: seq<Byte>, pos: nat, bs: seq<Block>, out: seq<Byte>, limit: nat)
    requires LegalBlocks(bs, pos, out, limit) && AllDecodable(bs)
    requires StartsWith(Stream(data), pos, BlocksBits(bs, pos, out, limit))
    ensures BlocksAt(data, pos, out, limit) == Some(ExpandBlocks(bs, pos, out, limit))
    decreases |bs|
  {
    hide Stream, BlockAt, LegalBlock, ExpandBlock, BodyBits, StartsWith, Decodable, LegalHeader, BlockBits;
    var b := bs[0];
    if |bs| == 1 {
      BlockComplete(data, pos, b, 1, out, limit);
    } else {
      var w, o := BlockBits(b, 0, pos, out, limit), ExpandBlock(b, pos + 3, out, limit);
      StartsWithSplit(Stream(data), pos, w, BlocksBits(bs[1..], pos + |w|, o, limit));
      BlockComplete(data, pos, b, 0, out, limit);
      BlocksComplete(data, pos + |w|, bs[1..], o, limit);
    }
  }

  lemma {:induction false} BlocksSound(data: seq<Byte>, pos: nat, out: seq<Byte>, limit: nat) returns (bs: seq<Block>)
    requires BlocksAt(data, pos, out, limit).Some?
    ensures LegalBlocks(bs, pos, out, limit)
    ensures StartsWith(Stream(data), pos, BlocksBits(bs, pos, out, limit))
    ensures BlocksAt(data, pos, out, limit) == Some(ExpandBlocks(bs, pos, out, limit))
    decreases 8 * |data| - pos
  {
    hide Stream, BlockAt, LegalBlock, ExpandBlock, BodyBits, StartsWith, BlockBits;
    var b := BlockSound(data, pos, out, limit);
    if Stream(data)[pos] == 1 {
      bs := [b];
    } else {
      var w, o := BlockBits(b, 0, pos, out, limit), ExpandBlock(b, pos + 3, out, limit);
      var rest := BlocksSound(data, pos + |w|, o, limit);
      bs := [b] + rest;
      assert bs[1..] == rest;
      StartsWithSplit(Stream(data), pos, w, BlocksBits(rest, pos + |w|, o, limit));
    }
  }

  /** Every legal stream whose tables are not over-subscribed decompresses to its meaning. */
  lemma DecompressComplete(data: seq<Byte>, bs: seq<Block>, size: nat)
    requires HeaderOk(data) && LegalBlocks(bs, 16, [], size) && AllDecodable(bs)
    requires StartsWith(Stream(data), 16, BlocksBits(bs, 16, [], size))
    requires |ExpandBlocks(bs, 16, [], size)| == size
    ensures Decompress(data, size) == Some(ExpandBlocks(bs, 16, [], size))
  {
    hide LegalBlocks, BlocksBits, ExpandBlocks, BlocksAt, Stream, AllDecodable;
    BlocksComplete(data, 16, bs, [], size);
  }

  /** Whatever decompresses is a legal stream, and the output is its meaning. */
  lemma DecompressSound(data: seq<Byte>, size: nat) returns (bs: seq<Block>)
    requires Decompress(data, size).Some?
    ensures HeaderOk(data) && LegalBlocks(bs, 16, [], size)
    ensures StartsWith(Stream(data), 16, BlocksBits(bs, 16, [], size))
    ensures Decompress(data, size) == Some(ExpandBlocks(bs, 16, [], size))
  {
    hide LegalBlocks, BlocksBits, ExpandBlocks, BlocksAt, Stream;
    bs := BlocksSound(data, 16, [], size);
  }
}
