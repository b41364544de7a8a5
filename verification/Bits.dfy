/** Bits, bytes and the two ways the decoder reads a run of bits as a number. */
module Bits {
  const TWO_32: int := 0x1_0000_0000
  const TWO_64: int := 0x1_0000_0000_0000_0000


  type Byte = x: int | 0 <= x < 256
  type Bit = x: int | 0 <= x < 2

  datatype Option<+T> = None | Some(value: T)

  function Pow2(n: nat): (r: nat)
    ensures r > 0
  {
    if n == 0 then 1 else 2 * Pow2(n - 1)
  }

  lemma {:induction false} Pow2Sum(a: nat, b: nat)
    ensures Pow2(a + b) == Pow2(a) * Pow2(b)
  {
    if a == 0 {
    } else {
      Pow2Sum(a - 1, b);
      MulAssoc(2, Pow2(a - 1), Pow2(b));
    }
  }

  lemma Pow2Values()
    ensures Pow2(1) == 2 && Pow2(8) == 256 && Pow2(15) == 32768 && Pow2(16) == 65536
  {
    assert Pow2(8) == 256;
    assert Pow2(15) == 32768;
    assert Pow2(16) == 2 * Pow2(15);
  }

  lemma MulAssoc(a: int, b: int, c: int)
    ensures a * (b * c) == (a * b) * c
  {
  }

  /** v shifted right k times. */
  function Shr(v: nat, k: nat): nat
    decreases k
  {
    if k == 0 then v else Shr(v / 2, k - 1)
  }

  /** Bit k of v. */
  function BitOf(v: nat, k: nat): Bit {
    Shr(v, k) % 2
  }

  /** Shifting right by k keeps exactly the number of the run of length 2^k that v lies in. */
  lemma {:induction false} ShrIsRun(v: nat, k: nat, c: nat)
    ensures Shr(v, k) == c <==> c * Pow2(k) <= v < c * Pow2(k) + Pow2(k)
    decreases k
  {
    if k > 0 {
      ShrIsRun(v / 2, k - 1, c);
      TimesDouble(c, Pow2(k - 1));
    }
  }

  lemma TimesDouble(c: int, p: int)
    ensures c * (2 * p) == 2 * (c * p)
  {
  }

  lemma {:induction false} ShrFits(v: nat, k: nat, l: nat)
    requires v < Pow2(l + k)
    ensures Shr(v, k) < Pow2(l)
    decreases k
  {
    if k > 0 {
      ShrFits(v / 2, k - 1, l);
    }
  }

  /** The number whose least significant bit comes first: how extra bits are read. */
  function LsbValue(bs: seq<Bit>): (v: nat)
    ensures v < Pow2(|bs|)
  {
    if bs == [] then 0 else bs[0] + 2 * LsbValue(bs[1..])
  }

  /** The n low bits of v, least significant first. */
  function LsbBits(v: nat, n: nat): (bs: seq<Bit>)
    ensures |bs| == n
    decreases n
  {
    if n == 0 then [] else [v % 2] + LsbBits(v / 2, n - 1)
  }

  lemma {:induction false} LsbRoundTrip(v: nat, n: nat)
    requires v < Pow2(n)
    ensures LsbValue(LsbBits(v, n)) == v
    decreases n
  {
    if n > 0 {
      LsbRoundTrip(v / 2, n - 1);
      assert LsbBits(v, n)[1..] == LsbBits(v / 2, n - 1);
    }
  }

  lemma {:induction false} LsbBitsOfValue(bs: seq<Bit>)
    ensures LsbBits(LsbValue(bs), |bs|) == bs
  {
    if bs != [] {
      LsbBitsOfValue(bs[1..]);
      assert LsbValue(bs) % 2 == bs[0] && LsbValue(bs) / 2 == LsbValue(bs[1..]);
      assert [bs[0]] + bs[1..] == bs;
    }
  }

  lemma LsbInjective(a: seq<Bit>, b: seq<Bit>)
    requires |a| == |b| && LsbValue(a) == LsbValue(b)
    ensures a == b
  {
    LsbBitsOfValue(a);
    LsbBitsOfValue(b);
  }

  /** Reading one more bit adds it at the top. */
  lemma {:induction false} LsbAppend(bs: seq<Bit>, b: Bit)
    ensures LsbValue(bs + [b]) == LsbValue(bs) + b * Pow2(|bs|)
  {
    if bs == [] {
      assert LsbValue([b]) == b + 2 * LsbValue([]);
    } else {
      LsbAppend(bs[1..], b);
      assert (bs + [b])[1..] == bs[1..] + [b];
      MulAssoc(2, b, Pow2(|bs| - 1));
      MulAssoc(b, 2, Pow2(|bs| - 1));
    }
  }

  lemma LsbSingle(b: Bit)
    ensures LsbValue([b]) == b
  {
    assert [b][1..] == [];
  }

  /** One more bit of a stream: it is worth its place value, or nothing. */
  lemma LsbNext(bits: seq<Bit>, start: nat, pos: nat, end: nat)
    requires start <= pos < |bits| && end == pos + 1
    ensures LsbValue(bits[start..end])
            == LsbValue(bits[start..pos]) + if bits[pos] == 1 then Pow2(pos - start) else 0
  {
    LsbAppend(bits[start..pos], bits[pos]);
    assert bits[start..end] == bits[start..pos] + [bits[pos]];
  }

  lemma LsbOne(bits: seq<Bit>, pos: nat, end: nat)
    requires pos < |bits| && end == pos + 1
    ensures LsbValue(bits[pos..end]) == bits[pos]
  {
    assert bits[pos..end] == [bits[pos]];
    LsbSingle(bits[pos]);
  }

  /** The n low bits of v, most significant first: how Huffman codewords are packed. */
  function MsbBits(v: nat, n: nat): (bs: seq<Bit>)
    ensures |bs| == n
    decreases n
  {
    if n == 0 then [] else MsbBits(v / 2, n - 1) + [v % 2]
  }

  lemma {:induction false} MsbTop(v: nat, n: nat)
    ensures MsbBits(v, n + 1) == [BitOf(v, n)] + MsbBits(v, n)
    decreases n
  {
    if n == 0 {
      assert MsbBits(v, 1) == MsbBits(v / 2, 0) + [v % 2];
    } else {
      MsbTop(v / 2, n - 1);
    }
  }

  lemma MulAtLeast(d: int, k: int)
    requires d >= 0 && k >= 1
    ensures d * k >= d
  {
  }

  lemma MulMono(a: nat, b: nat, c: nat)
    requires a <= b
    ensures a * c <= b * c
  {
  }

  lemma Distribute(d: int, a: int, b: int)
    ensures d * (a + b) == d * a + d * b
    ensures d * (a - b) == d * a - d * b
  {
  }

  lemma DivUnique(v: int, d: int, q: int, r: int)
    requires d > 0 && 0 <= r < d && v == d * q + r
    ensures v / d == q && v % d == r
  {
    var p, s := v / d, v % d;
    assert d * p + s == d * q + r;
    Distribute(d, q, p);
    Distribute(d, p, q);
    if q > p {
      MulAtLeast(d, q - p);
    } else if q < p {
      MulAtLeast(d, p - q);
    }
  }

  /** The first k of n codeword bits are the codeword of the value shifted right. */
  lemma {:induction false} MsbPrefix(v: nat, n: nat, k: nat)
    requires k <= n
    ensures MsbBits(v, n)[..k] == MsbBits(Shr(v, n - k), k)
    decreases n - k
  {
    if k < n {
      MsbPrefix(v / 2, n - 1, k);
      assert MsbBits(v, n)[..k] == MsbBits(v / 2, n - 1)[..k];
    }
  }

  lemma {:induction false} MsbInjective(a: nat, b: nat, n: nat)
    requires a < Pow2(n) && b < Pow2(n)
    requires MsbBits(a, n) == MsbBits(b, n)
    ensures a == b
    decreases n
  {
    if n > 0 {
      var x, y := MsbBits(a, n), MsbBits(b, n);
      assert x[..n - 1] == MsbBits(a / 2, n - 1) && y[..n - 1] == MsbBits(b / 2, n - 1);
      assert x[n - 1] == a % 2 && y[n - 1] == b % 2;
      MsbInjective(a / 2, b / 2, n - 1);
    }
  }

  lemma HalfMod(v: nat, p: nat)
    requires p > 0
    ensures v / 2 % p == v % (2 * p) / 2 && v % (2 * p) % 2 == v % 2
  {
    var q, r := v / (2 * p), v % (2 * p);
    assert v == 2 * (p * q) + r by { MulAssoc(2, p, q); }
    DivUnique(v / 2, p, q, r / 2);
  }

  /** Only the n low bits of v matter. */
  lemma {:induction false} MsbBitsMod(v: nat, n: nat)
    ensures MsbBits(v % Pow2(n), n) == MsbBits(v, n)
    decreases n
  {
    if n > 0 {
      MsbBitsMod(v / 2, n - 1);
      HalfMod(v, Pow2(n - 1));
    }
  }

  /** The bits from pos on start with w. */
  predicate StartsWith(bits: seq<Bit>, pos: nat, w: seq<Bit>) {
    pos + |w| <= |bits| && bits[pos..pos + |w|] == w
  }

  lemma StartsWithSlice(bits: seq<Bit>, pos: nat, end: nat)
    requires pos <= end <= |bits|
    ensures StartsWith(bits, pos, bits[pos..end])
  {
  }

  lemma StartsWithThree(bits: seq<Bit>, pos: nat, a: seq<Bit>, b: seq<Bit>, c: seq<Bit>)
    requires StartsWith(bits, pos, a) && StartsWith(bits, pos + |a|, b) && StartsWith(bits, pos + |a| + |b|, c)
    ensures StartsWith(bits, pos, a + (b + c))
  {
    hide StartsWith;
    StartsWithSplit(bits, pos + |a|, b, c);
    StartsWithSplit(bits, pos, a, b + c);
  }

  lemma StartsWithSplit(bits: seq<Bit>, pos: nat, a: seq<Bit>, b: seq<Bit>)
    ensures StartsWith(bits, pos, a + b) <==> StartsWith(bits, pos, a) && StartsWith(bits, pos + |a|, b)
  {
    if pos + |a| + |b| <= |bits| {
      var w := bits[pos..pos + |a| + |b|];
      assert w[..|a|] == bits[pos..pos + |a|];
      assert w[|a|..] == bits[pos + |a|..pos + |a| + |b|];
      assert (a + b)[..|a|] == a && (a + b)[|a|..] == b;
      assert w == w[..|a|] + w[|a|..];
    }
  }

  // ---- The bit stream of a byte buffer ----

  function BitAt(data: seq<Byte>, i: nat): Bit
    requires i < 8 * |data|
  {
    BitOf(data[i / 8], i % 8)
  }

  /** Every bit of the buffer in reading order. */
  function Stream(data: seq<Byte>): (bs: seq<Bit>)
    ensures |bs| == 8 * |data|
  {
    seq(8 * |data|, i requires 0 <= i < 8 * |data| => BitAt(data, i))
  }

  lemma StreamAt(data: seq<Byte>, i: nat)
    requires i < 8 * |data|
    ensures Stream(data)[i] == BitAt(data, i)
  {
  }

  lemma ByteShift(data: seq<Byte>, from: nat, count: nat, i: nat)
    requires from + count <= |data| && i < 8 * count
    ensures BitAt(data[from..from + count], i) == BitAt(data, 8 * from + i)
  {
    DivUnique(8 * from + i, 8, from + i / 8, i % 8);
  }

  lemma StreamShift(data: seq<Byte>, from: nat, count: nat, i: nat)
    requires from + count <= |data| && i < 8 * count
    ensures Stream(data)[8 * from + i] == Stream(data[from..from + count])[i]
  {
    calc {
      Stream(data)[8 * from + i];
      { StreamAt(data, 8 * from + i); }
      BitAt(data, 8 * from + i);
      { ByteShift(data, from, count, i); }
      BitAt(data[from..from + count], i);
      { StreamAt(data[from..from + count], i); }
      Stream(data[from..from + count])[i];
    }
  }

  /** Whole bytes at a byte boundary of the stream are the bytes of the buffer. */
  lemma StreamBytes(data: seq<Byte>, from: nat, count: nat, lo: nat, hi: nat)
    requires from + count <= |data| && lo == 8 * from && hi == lo + 8 * count
    ensures Stream(data)[lo..hi] == Stream(data[from..from + count])
  {
    var bits, want := Stream(data)[lo..hi], Stream(data[from..from + count]);
    forall i | 0 <= i < |bits|
      ensures bits[i] == want[i]
    {
      StreamShift(data, from, count, i);
    }
  }

  lemma {:induction false} LsbBitAt(v: nat, n: nat, k: nat)
    requires k < n
    ensures LsbBits(v, n)[k] == BitOf(v, k)
    decreases n
  {
    if k > 0 {
      LsbBitAt(v / 2, n - 1, k - 1);
    }
  }

  lemma SameBitsSameValue(a: nat, b: nat, n: nat)
    requires a < Pow2(n) && b < Pow2(n)
    requires forall k :: 0 <= k < n ==> BitOf(a, k) == BitOf(b, k)
    ensures a == b
  {
    var x, y := LsbBits(a, n), LsbBits(b, n);
    forall k | 0 <= k < n
      ensures x[k] == y[k]
    {
      LsbBitAt(a, n, k);
      LsbBitAt(b, n, k);
    }
    assert x == y;
    LsbRoundTrip(a, n);
    LsbRoundTrip(b, n);
  }

  lemma StreamInjective(a: seq<Byte>, b: seq<Byte>)
    requires Stream(a) == Stream(b)
    ensures a == b
  {
    assert |a| == |b|;
    forall i | 0 <= i < |a|
      ensures a[i] == b[i]
    {
      forall k | 0 <= k < 8
        ensures BitOf(a[i], k) == BitOf(b[i], k)
      {
        StreamAt(a, 8 * i + k);
        StreamAt(b, 8 * i + k);
        DivUnique(8 * i + k, 8, i, k);
      }
      Pow2Values();
      SameBitsSameValue(a[i], b[i], 8);
    }
  }
}
