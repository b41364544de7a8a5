/** PNG scanline filters for 8-bit RGB images, and the pixels of a compressed image.

    Pixel bytes are numbered row by row: byte k lies in row k / stride. In the filtered
    data every row is preceded by its filter type, so byte k is found at k + k / stride + 1. */
module Png {
  import opened Bits
  import Zlib
  import ZlibCorrect
  import BitReader

  const MAX_DIMENSION: nat := 4096

  // ---- Predictors ----

  function Abs(x: int): nat { if x < 0 then -x else x }

  function Paeth(a: int, b: int, c: int): int {
    var p := a + b - c;
    if Abs(p - a) <= Abs(p - b) && Abs(p - a) <= Abs(p - c) then a
    else if Abs(p - b) <= Abs(p - c) then b
    else c
  }

  /** The predictor is the neighbour nearest to a + b - c, ties going to a, then b. */
  lemma PaethIsNearest(a: int, b: int, c: int)
    ensures var p, r := a + b - c, Paeth(a, b, c);
            && r in {a, b, c}
            && Abs(p - r) <= Abs(p - a) && Abs(p - r) <= Abs(p - b) && Abs(p - r) <= Abs(p - c)
            && (Abs(p - a) == Abs(p - r) ==> r == a) && (Abs(p - b) == Abs(p - r) && r != a ==> r == b)
  {
  }

  function Predictor(filter: nat, left: Byte, up: Byte, upperLeft: Byte): Byte
    requires filter <= 4
  {
    match filter
    case 0 => 0
    case 1 => left
    case 2 => up
    case 3 => (left as int + up) / 2
    case _ => Paeth(left, up, upperLeft)
  }

  // ---- Filtered images ----

  function Left(pixels: seq<Byte>, stride: nat, k: nat): Byte
    requires stride > 0 && k <= |pixels|
  {
    RemainderBelow(k, stride);
    if k % stride >= 3 then pixels[k - 3] else 0
  }

  function Up(pixels: seq<Byte>, stride: nat, k: nat): Byte
    requires stride > 0 && k <= |pixels|
  {
    if k >= stride then pixels[k - stride] else 0
  }

  function UpperLeft(pixels: seq<Byte>, stride: nat, k: nat): Byte
    requires stride > 0 && k <= |pixels|
  {
    if k >= stride && k % stride >= 3 then RemainderAbove(k, stride); pixels[k - stride - 3] else 0
  }

  lemma RemainderBelow(k: nat, stride: nat)
    requires stride > 0
    ensures k % stride <= k
  {
    if k < stride {
      DivUnique(k, stride, 0, k);
    }
  }

  lemma RemainderAbove(k: nat, stride: nat)
    requires 0 < stride <= k
    ensures k % stride + stride <= k
  {
    var q := k / stride;
    if q >= 1 {
      MulAtLeast(stride, q);
    }
  }

  function Predicted(filter: nat, pixels: seq<Byte>, stride: nat, k: nat): Byte
    requires filter <= 4 && stride > 0 && k <= |pixels|
  {
    Predictor(filter, Left(pixels, stride, k), Up(pixels, stride, k), UpperLeft(pixels, stride, k))
  }

  /** Sizes of an image of `height` rows of `stride` bytes and of its filtered form. */
  predicate Shape(raw: seq<Byte>, stride: nat, height: nat, n: nat) {
    stride > 0 && n == stride * height && |raw| == n + height
  }

  lemma RowOf(k: nat, stride: nat, height: nat)
    requires stride > 0 && k < stride * height
    ensures k / stride < height
  {
    if k / stride >= height {
      MulMono(height, k / stride, stride);
    }
  }

  /** The filter type of the row of byte k. */
  function FilterType(raw: seq<Byte>, stride: nat, height: nat, n: nat, k: nat): Byte
    requires Shape(raw, stride, height, n) && k < n
  {
    RowOf(k, stride, height);
    RemainderBelow(k, stride);
    raw[k - k % stride + k / stride]
  }

  function FilteredByte(raw: seq<Byte>, stride: nat, height: nat, n: nat, k: nat): Byte
    requires Shape(raw, stride, height, n) && k < n
  {
    RowOf(k, stride, height);
    raw[k + k / stride + 1]
  }

  ghost predicate FilteredAt(raw: seq<Byte>, pixels: seq<Byte>, stride: nat, height: nat, n: nat, k: nat)
    requires Shape(raw, stride, height, n) && k < n && k < |pixels|
  {
    var filter := FilterType(raw, stride, height, n, k);
    filter <= 4
    && FilteredByte(raw, stride, height, n, k) == (pixels[k] - Predicted(filter, pixels, stride, k)) % 256
  }

  /** raw is the filtered form of the pixels, with a legal filter type in every row. */
  ghost predicate IsFiltered(raw: seq<Byte>, pixels: seq<Byte>, stride: nat, height: nat) {
    && Shape(raw, stride, height, |pixels|)
    && forall k :: 0 <= k < |pixels| ==> FilteredAt(raw, pixels, stride, height, |pixels|, k)
  }

  /** The filtered form, for any choice of filter types. */
  function FilterImage(pixels: seq<Byte>, filters: seq<Byte>, stride: nat): (raw: seq<Byte>)
    requires stride > 0 && |pixels| == stride * |filters| && forall y :: 0 <= y < |filters| ==> filters[y] <= 4
    ensures |raw| == |pixels| + |filters|
  {
    seq(|pixels| + |filters|, i requires 0 <= i < |pixels| + |filters| => FilterImageAt(pixels, filters, stride, i))
  }

  function FilterImageAt(pixels: seq<Byte>, filters: seq<Byte>, stride: nat, i: nat): Byte
    requires stride > 0 && |pixels| == stride * |filters| && forall y :: 0 <= y < |filters| ==> filters[y] <= 4
    requires i < |pixels| + |filters|
  {
    var y, x := i / (stride + 1), i % (stride + 1);
    RawRow(i, stride, |filters|, y, x);
    if x == 0 then filters[y]
    else
      var k := stride * y + x - 1;
      (pixels[k] - Predicted(filters[y], pixels, stride, k)) % 256
  }

  lemma RawRow(i: nat, stride: nat, height: nat, y: nat, x: nat)
    requires stride > 0 && i < stride * height + height && y == i / (stride + 1) && x == i % (stride + 1)
    ensures y < height && i == stride * y + y + x && stride * y + stride <= stride * height
  {
    Distribute(y, stride, 1);
    assert i == (stride + 1) * y + x;
    if y >= height {
      MulMono(height, y, stride);
    } else {
      MulMono(y + 1, height, stride);
      Distribute(stride, y, 1);
    }
  }

  lemma FilterPlaces(k: nat, stride: nat, height: nat)
    requires stride > 0 && k < stride * height
    ensures k / stride < height
    ensures (k - k % stride + k / stride) / (stride + 1) == k / stride
    ensures (k - k % stride + k / stride) % (stride + 1) == 0
    ensures (k + k / stride + 1) / (stride + 1) == k / stride
    ensures (k + k / stride + 1) % (stride + 1) == k % stride + 1
  {
    RowOf(k, stride, height);
    var y, x := k / stride, k % stride;
    Distribute(y, stride, 1);
    DivUnique(k - x + y, stride + 1, y, 0);
    DivUnique(k + y + 1, stride + 1, y, x + 1);
  }

  predicate Filterable(pixels: seq<Byte>, filters: seq<Byte>, stride: nat) {
    stride > 0 && |pixels| == stride * |filters| && forall y :: 0 <= y < |filters| ==> filters[y] <= 4
  }

  lemma TypeThere(pixels: seq<Byte>, filters: seq<Byte>, stride: nat, k: nat)
    requires Filterable(pixels, filters, stride)
    requires k < |pixels| && Shape(FilterImage(pixels, filters, stride), stride, |filters|, |pixels|)
    ensures k / stride < |filters|
    ensures FilterType(FilterImage(pixels, filters, stride), stride, |filters|, |pixels|, k) == filters[k / stride]
  {
    hide Predicted;
    FilterPlaces(k, stride, |filters|);
  }

  lemma ByteThere(pixels: seq<Byte>, filters: seq<Byte>, stride: nat, k: nat)
    requires Filterable(pixels, filters, stride)
    requires k < |pixels| && Shape(FilterImage(pixels, filters, stride), stride, |filters|, |pixels|)
    ensures k / stride < |filters|
    ensures FilteredByte(FilterImage(pixels, filters, stride), stride, |filters|, |pixels|, k)
         == (pixels[k] - Predicted(filters[k / stride], pixels, stride, k)) % 256
  {
    hide Predicted;
    FilterPlaces(k, stride, |filters|);
    assert k == stride * (k / stride) + k % stride;
  }

  lemma FilteredThere(pixels: seq<Byte>, filters: seq<Byte>, stride: nat, k: nat)
    requires Filterable(pixels, filters, stride)
    requires k < |pixels| && Shape(FilterImage(pixels, filters, stride), stride, |filters|, |pixels|)
    ensures FilteredAt(FilterImage(pixels, filters, stride), pixels, stride, |filters|, |pixels|, k)
  {
    hide Predicted, FilterImage, FilterType, FilteredByte;
    TypeThere(pixels, filters, stride, k);
    ByteThere(pixels, filters, stride, k);
  }

  /** Filtering gives a filtered form. */
  lemma FilterImageIsFiltered(pixels: seq<Byte>, filters: seq<Byte>, stride: nat)
    requires stride > 0 && |pixels| == stride * |filters| && forall y :: 0 <= y < |filters| ==> filters[y] <= 4
    ensures IsFiltered(FilterImage(pixels, filters, stride), pixels, stride, |filters|)
  {
    hide FilteredAt, FilterImage;
    forall k | 0 <= k < |pixels|
      ensures FilteredAt(FilterImage(pixels, filters, stride), pixels, stride, |filters|, |pixels|, k)
    {
      FilteredThere(pixels, filters, stride, k);
    }
  }

  lemma SubtractInjective(a: Byte, b: Byte, p: Byte)
    requires (a as int - p) % 256 == (b as int - p) % 256
    ensures a == b
  {
  }

  /** Byte k depends only on the filtered data and the pixels before it. */
  lemma {:induction false} FilteredPrefixUnique(raw: seq<Byte>, p: seq<Byte>, q: seq<Byte>, stride: nat, height: nat,
                                                m: nat)
    requires IsFiltered(raw, p, stride, height) && IsFiltered(raw, q, stride, height) && m <= |p| == |q|
    ensures p[..m] == q[..m]
  {
    if m > 0 {
      FilteredPrefixUnique(raw, p, q, stride, height, m - 1);
      var k := m - 1;
      assert FilteredAt(raw, p, stride, height, |p|, k) && FilteredAt(raw, q, stride, height, |q|, k);
      var filter := FilterType(raw, stride, height, |p|, k);
      PredictedPrefix(filter, p, q, stride, k);
      SubtractInjective(p[k], q[k], Predicted(filter, p, stride, k));
      assert p[..m] == p[..k] + [p[k]] && q[..m] == q[..k] + [q[k]];
    }
  }

  lemma PredictedPrefix(filter: nat, p: seq<Byte>, q: seq<Byte>, stride: nat, k: nat)
    requires filter <= 4 && stride > 0 && k <= |p| && k <= |q| && p[..k] == q[..k]
    ensures Predicted(filter, p, stride, k) == Predicted(filter, q, stride, k)
  {
    RemainderBelow(k, stride);
    assert forall i :: 0 <= i < k ==> p[i] == p[..k][i] && q[i] == q[..k][i];
    if k >= stride {
      RemainderAbove(k, stride);
    }
  }

  /** At most one image has a given filtered form. */
  lemma FilteredFormUnique(raw: seq<Byte>, p: seq<Byte>, q: seq<Byte>, stride: nat, height: nat)
    requires IsFiltered(raw, p, stride, height) && IsFiltered(raw, q, stride, height)
    ensures p == q
  {
    FilteredPrefixUnique(raw, p, q, stride, height, |p|);
    assert p[..|p|] == p && q[..|q|] == q;
  }

  // ---- The in-place filter inversion ----

  /** The first m pixel bytes agree with the filtered data. */
  ghost predicate Restored(raw: seq<Byte>, done: seq<Byte>, stride: nat, height: nat, n: nat) {
    && Shape(raw, stride, height, n) && |done| <= n
    && forall k :: 0 <= k < |done| ==> FilteredAt(raw, done, stride, height, n, k)
  }

  lemma StillFiltered(raw: seq<Byte>, done: seq<Byte>, v: Byte, stride: nat, height: nat, n: nat, k: nat)
    requires Shape(raw, stride, height, n) && k < |done| < n && FilteredAt(raw, done, stride, height, n, k)
    ensures FilteredAt(raw, done + [v], stride, height, n, k)
  {
    hide Predicted, FilterType, FilteredByte;
    assert (done + [v])[..k] == done[..k];
    PredictedPrefix(FilterType(raw, stride, height, n, k), done, done + [v], stride, k);
  }

  lemma NewlyFiltered(raw: seq<Byte>, done: seq<Byte>, v: Byte, stride: nat, height: nat, n: nat)
    requires Shape(raw, stride, height, n) && |done| < n && FilterType(raw, stride, height, n, |done|) <= 4
    requires v == (FilteredByte(raw, stride, height, n, |done|) as int
                   + Predicted(FilterType(raw, stride, height, n, |done|), done, stride, |done|)) % 256
    ensures FilteredAt(raw, done + [v], stride, height, n, |done|)
  {
    hide Predicted, FilterType, FilteredByte;
    assert (done + [v])[..|done|] == done[..|done|];
    PredictedPrefix(FilterType(raw, stride, height, n, |done|), done, done + [v], stride, |done|);
  }

  lemma RestoreNext(raw: seq<Byte>, done: seq<Byte>, stride: nat, height: nat, n: nat, v: Byte)
    requires Restored(raw, done, stride, height, n) && |done| < n
    requires FilterType(raw, stride, height, n, |done|) <= 4
    requires v == (FilteredByte(raw, stride, height, n, |done|) as int
                   + Predicted(FilterType(raw, stride, height, n, |done|), done, stride, |done|)) % 256
    ensures Restored(raw, done + [v], stride, height, n)
  {
    hide FilteredAt;
    var next := done + [v];
    forall k | 0 <= k < |next|
      ensures FilteredAt(raw, next, stride, height, n, k)
    {
      if k < |done| {
        StillFiltered(raw, done, v, stride, height, n, k);
      } else {
        NewlyFiltered(raw, done, v, stride, height, n);
      }
    }
  }

  lemma PlaceOf(k: nat, y: nat, x: nat, stride: nat, height: nat)
    requires x < stride && y < height && k == y * stride + x
    ensures k / stride == y && k % stride == x && k < stride * height
    ensures y * (stride + 1) == k - x + y
  {
    DivUnique(k, stride, y, x);
    MulMono(y + 1, height, stride);
    Distribute(stride, y, 1);
    Distribute(y, stride, 1);
  }

  lemma RowStarts(y: nat, stride: nat, height: nat)
    requires y < height
    ensures y * (stride + 1) < stride * height + height
    ensures y * stride + stride <= stride * height && (y + 1) * stride == y * stride + stride
  {
    MulMono(y + 1, height, stride);
    Distribute(stride, y, 1);
    Distribute(y, stride, 1);
  }

  ghost predicate RowFilterOk(raw: seq<Byte>, stride: nat, y: nat) {
    0 <= y * (stride + 1) < |raw| && raw[y * (stride + 1)] <= 4
  }

  /** Restores one byte from its filtered form and its neighbours. */
  method UnfilterByte(raw: seq<Byte>, pixels: array<Byte>, stride: nat, height: nat, y: nat, x: nat, filter: Byte)
    requires Shape(raw, stride, height, pixels.Length) && y < height && x < stride && filter <= 4
    requires y * stride + x < pixels.Length && 0 <= y * (stride + 1) < |raw| && filter == raw[y * (stride + 1)]
    requires Restored(raw, pixels[..y * stride + x], stride, height, pixels.Length)
    modifies pixels
    ensures Restored(raw, pixels[..y * stride + x + 1], stride, height, pixels.Length)
  {
    hide Predictor, Restored;
    ghost var k := y * stride + x;
    ghost var done := pixels[..k];
    PlaceOf(k, y, x, stride, height);
    if k >= stride {
      RemainderAbove(k, stride);
    }
    var row := y * (stride + 1) + 1;
    var left: Byte := if x >= 3 then pixels[y * stride + x - 3] else 0;
    RowAbove(y, stride);
    var up: Byte := if y > 0 then pixels[(y - 1) * stride + x] else 0;
    var upperLeft: Byte := if y > 0 && x >= 3 then pixels[(y - 1) * stride + x - 3] else 0;
    var predictor := Predictor(filter, left, up, upperLeft);
    var v: Byte := (raw[row + x] as int + predictor) % 256;
    assert left == Left(done, stride, k) && up == Up(done, stride, k) && upperLeft == UpperLeft(done, stride, k);
    assert Shape(raw, stride, height, pixels.Length);
    RestoreNext(raw, done, stride, height, pixels.Length, v);
    pixels[y * stride + x] := v;
    assert pixels[..k + 1] == done + [v];
  }

  lemma RowAbove(y: nat, stride: nat)
    ensures y > 0 ==> (y - 1) * stride == y * stride - stride && y * stride >= stride
    ensures y == 0 ==> y * stride == 0
  {
    if y > 0 {
      Distribute(stride, y, 1);
      MulAtLeast(stride, y);
    }
  }

  /** Undoes the filter of every row; fails on an unknown filter type. */
  method Unfilter(raw: seq<Byte>, width: nat, height: nat, pixels: array<Byte>) returns (ok: bool)
    requires 0 < width <= MAX_DIMENSION && height <= MAX_DIMENSION
    requires Shape(raw, width * 3, height, pixels.Length)
    modifies pixels
    ensures ok <==> forall y :: 0 <= y < height ==> RowFilterOk(raw, width * 3, y)
    ensures ok ==> IsFiltered(raw, pixels[..], width * 3, height)
  {
    hide FilteredAt;
    var stride := width * 3;
    assert pixels[..0] == [];
    for y := 0 to height
      invariant y * stride <= pixels.Length
      invariant forall j :: 0 <= j < y ==> RowFilterOk(raw, stride, j)
      invariant Restored(raw, pixels[..y * stride], stride, height, pixels.Length)
    {
      RowStarts(y, stride, height);
      var filter := raw[y * (stride + 1)];
      for x := 0 to stride
        invariant x > 0 ==> filter <= 4
        invariant Restored(raw, pixels[..y * stride + x], stride, height, pixels.Length)
      {
        if filter > 4 {
          assert !RowFilterOk(raw, stride, y);
          return false;
        }
        UnfilterByte(raw, pixels, stride, height, y, x, filter);
      }
      assert RowFilterOk(raw, stride, y);
    }
    assert pixels[..height * stride] == pixels[..];
    ok := true;
  }

  // ---- Whole images ----

  /** The compressed data holds exactly these pixels. */
  ghost predicate Holds(data: seq<Byte>, width: nat, height: nat, pixels: seq<Byte>) {
    var raw := Zlib.Decompress(data, height * (width * 3 + 1));
    raw.Some? && IsFiltered(raw.value, pixels, width * 3, height)
  }

  /** Decompresses and unfilters an image; the sizes are those the image header gave, and `memory` says
      whether there was memory for both buffers. */
  method DecodePixels(data: seq<Byte>, width: nat, height: nat, memory: bool) returns (ok: bool, pixels: array<Byte>)
    requires |data| < BitReader.MAX_SIZE && 0 < width <= MAX_DIMENSION && 0 < height <= MAX_DIMENSION
    ensures fresh(pixels)
    ensures ok <==> memory && exists p :: Holds(data, width, height, p)
    ensures ok ==> Holds(data, width, height, pixels[..]) && pixels.Length == width * 3 * height
  {
    hide Zlib.Decompress, IsFiltered, RowFilterOk;
    if !memory {
      return false, new Byte[0];
    }
    Distribute(height, width * 3, 1);
    var raw := new Byte[height * (width * 3 + 1)](_ => 0);
    pixels := new Byte[width * 3 * height](_ => 0);
    var written;
    ok, written := Zlib.InflateZlib(data, raw);
    if ok {
      var filtered := raw[..];
      ok := Unfilter(filtered, width, height, pixels);
      if ok {
        assert Holds(data, width, height, pixels[..]);
      } else {
        BadRowHoldsNothing(filtered, width * 3, height);
      }
    }
  }

  lemma BadRowHoldsNothing(raw: seq<Byte>, stride: nat, height: nat)
    requires stride > 0 && |raw| == stride * height + height
    requires !forall y :: 0 <= y < height ==> RowFilterOk(raw, stride, y)
    ensures forall p :: !IsFiltered(raw, p, stride, height)
  {
    var y :| 0 <= y < height && !RowFilterOk(raw, stride, y);
    forall p
      ensures !IsFiltered(raw, p, stride, height)
    {
      if Shape(raw, stride, height, |p|) {
        RowStarts(y, stride, height);
        PlaceOf(y * stride, y, 0, stride, height);
        assert !FilteredAt(raw, p, stride, height, |p|, y * stride);
      }
    }
  }

  /** Any image, filtered with any filter per row and compressed as any legal blocks, is held by
      the compressed data, and no other image is. */
  lemma ImageRoundTrip(data: seq<Byte>, blocks: seq<Zlib.Block>, pixels: seq<Byte>, filters: seq<Byte>, width: nat,
                       q: seq<Byte>)
    requires width > 0 && |pixels| == width * 3 * |filters|
    requires forall y :: 0 <= y < |filters| ==> filters[y] <= 4
    requires var size := |filters| * (width * 3 + 1);
             && Zlib.HeaderOk(data) && Zlib.LegalBlocks(blocks, 16, [], size) && Zlib.AllDecodable(blocks)
             && StartsWith(Stream(data), 16, Zlib.BlocksBits(blocks, 16, [], size))
             && Zlib.ExpandBlocks(blocks, 16, [], size) == FilterImage(pixels, filters, width * 3)
    ensures Holds(data, width, |filters|, q) <==> q == pixels
  {
    hide Zlib.HeaderOk, Zlib.LegalBlocks, Zlib.AllDecodable, Zlib.BlocksBits, Zlib.ExpandBlocks, Zlib.Decompress;
    hide StartsWith, Stream, FilterImage, IsFiltered;
    var size := |filters| * (width * 3 + 1);
    Distribute(|filters|, width * 3, 1);
    ZlibCorrect.DecompressComplete(data, blocks, size);
    var raw := FilterImage(pixels, filters, width * 3);
    FilterImageIsFiltered(pixels, filters, width * 3);
    if Holds(data, width, |filters|, q) {
      FilteredFormUnique(raw, pixels, q, width * 3, |filters|);
    }
  }
}
