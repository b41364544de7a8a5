/** The header of a dynamic block: the code-length code and the run-length coded lengths.

    `ExpandRuns` is the reference meaning of a sequence of runs; a repeat may start in the
    literal part of the lengths and end in the distance part. */
module DynamicHeader {
  import opened Bits
  import opened Huffman
  import BitReader

  const ORDER: seq<nat> := [16, 17, 18, 0, 8, 7, 9, 6, 10, 5, 11, 4, 12, 3, 13, 2, 14, 1, 15]
  const PLACE: seq<nat> := [3, 17, 15, 13, 11, 9, 7, 5, 4, 6, 8, 10, 12, 14, 16, 18, 0, 1, 2]

  function Order(k: nat): (s: nat)
    requires k < 19
    ensures s < 19
  {
    ORDER[k]
  }

  /** Where in the order symbol s comes. */
  function Place(s: nat): (k: nat)
    requires s < 19
    ensures k < 19
  {
    PLACE[s]
  }

  lemma PlaceInOrder(s: nat)
    requires s < 19
    ensures Order(Place(s)) == s
  {
  }

  lemma OrderInPlace(s: nat)
    requires s < 19
    ensures Place(Order(s)) == s
  {
  }

  lemma OrderPlace(s: nat)
    requires s < 19
    ensures Order(Place(s)) == s && Place(Order(s)) == s
  {
    hide Order, Place;
    PlaceInOrder(s);
    OrderInPlace(s);
  }

  // ---- Lengths of the code-length code ----

  predicate CodeLengths(cl: seq<nat>, n: nat)
    requires n <= 19
  {
    |cl| == 19 && forall k :: 0 <= k < 19 ==> cl[Order(k)] < if k < n then 8 else 1
  }

  /** The first n lengths in the fixed order, three bits each. */
  function CodeLengthBits(cl: seq<nat>, n: nat): (bs: seq<Bit>)
    requires |cl| == 19 && n <= 19
    ensures |bs| == 3 * n
  {
    if n == 0 then [] else CodeLengthBits(cl, n - 1) + LsbBits(cl[Order(n - 1)], 3)
  }

  /** What is read back: lengths not sent are 0. */
  function CodeLengthsAt(bits: seq<Bit>, pos: nat, n: nat): (cl: seq<nat>)
    requires n <= 19 && pos + 3 * n <= |bits|
    ensures |cl| == 19
  {
    seq(19, s requires 0 <= s < 19 =>
      if Place(s) < n then LsbValue(bits[pos + 3 * Place(s)..pos + 3 * Place(s) + 3]) else 0)
  }

  lemma ThreeBits(v: nat)
    requires v < 8
    ensures v < Pow2(3)
  {
  }

  lemma {:induction false} CodeLengthBitsAt(bits: seq<Bit>, pos: nat, cl: seq<nat>, n: nat, k: nat)
    requires |cl| == 19 && k < n <= 19 && cl[Order(k)] < 8
    requires StartsWith(bits, pos, CodeLengthBits(cl, n))
    ensures LsbValue(bits[pos + 3 * k..pos + 3 * k + 3]) == cl[Order(k)]
    decreases n
  {
    hide LsbBits, LsbValue, Order;
    StartsWithSplit(bits, pos, CodeLengthBits(cl, n - 1), LsbBits(cl[Order(n - 1)], 3));
    if k < n - 1 {
      CodeLengthBitsAt(bits, pos, cl, n - 1, k);
    } else {
      ThreeBits(cl[Order(k)]);
      LsbRoundTrip(cl[Order(k)], 3);
    }
  }

  lemma CodeLengthsComplete(bits: seq<Bit>, pos: nat, cl: seq<nat>, n: nat)
    requires n <= 19 && CodeLengths(cl, n) && StartsWith(bits, pos, CodeLengthBits(cl, n))
    ensures pos + 3 * n <= |bits| && CodeLengthsAt(bits, pos, n) == cl
  {
    hide LsbValue, Order, Place, CodeLengthBits;
    var got := CodeLengthsAt(bits, pos, n);
    forall s: nat | s < 19
      ensures got[s] == cl[s]
    {
      OrderPlace(s);
      if Place(s) < n {
        CodeLengthBitsAt(bits, pos, cl, n, Place(s));
      }
    }
  }

  lemma {:induction false} CodeLengthBitsSound(bits: seq<Bit>, pos: nat, cl: seq<nat>, n: nat)
    requires |cl| == 19 && n <= 19 && pos + 3 * n <= |bits|
    requires forall k :: 0 <= k < n ==> cl[Order(k)] == LsbValue(bits[pos + 3 * k..pos + 3 * k + 3])
    ensures StartsWith(bits, pos, CodeLengthBits(cl, n))
  {
    hide LsbBits, LsbValue, Order;
    if n > 0 {
      CodeLengthBitsSound(bits, pos, cl, n - 1);
      LsbBitsOfValue(bits[pos + 3 * (n - 1)..pos + 3 * (n - 1) + 3]);
      StartsWithSplit(bits, pos, CodeLengthBits(cl, n - 1), LsbBits(cl[Order(n - 1)], 3));
    }
  }

  lemma CodeLengthsSound(bits: seq<Bit>, pos: nat, n: nat)
    requires n <= 19 && pos + 3 * n <= |bits|
    ensures var cl := CodeLengthsAt(bits, pos, n);
            CodeLengths(cl, n) && StartsWith(bits, pos, CodeLengthBits(cl, n))
  {
    hide LsbValue, Order, Place, CodeLengthBits;
    var cl := CodeLengthsAt(bits, pos, n);
    forall k: nat | k < 19
      ensures cl[Order(k)] == if k < n then LsbValue(bits[pos + 3 * k..pos + 3 * k + 3]) else 0
      ensures k < n ==> cl[Order(k)] < 8
    {
      OrderPlace(k);
      assert Pow2(3) == 8;
    }
    CodeLengthBitsSound(bits, pos, cl, n);
  }

  // ---- Run-length coded lengths ----

  datatype Run = One(length: nat) | Again(count: nat) | Zeros(count: nat) | ManyZeros(count: nat)

  predicate LegalRun(r: Run) {
    match r
    case One(l) => l <= 15
    case Again(n) => 3 <= n <= 6
    case Zeros(n) => 3 <= n <= 10
    case ManyZeros(n) => 11 <= n <= 138
  }

  function RunSymbol(r: Run): nat
    requires LegalRun(r)
  {
    match r
    case One(l) => l
    case Again(_) => 16
    case Zeros(_) => 17
    case ManyZeros(_) => 18
  }

  function RunExtra(r: Run): seq<Bit>
    requires LegalRun(r)
  {
    match r
    case One(_) => []
    case Again(n) => LsbBits(n - 3, 2)
    case Zeros(n) => LsbBits(n - 3, 3)
    case ManyZeros(n) => LsbBits(n - 11, 7)
  }

  function Repeat(v: nat, n: nat): (r: seq<nat>)
    ensures |r| == n
    ensures forall i :: 0 <= i < n ==> r[i] == v
  {
    seq(n, _ => v)
  }

  /** What one run adds to the lengths so far. */
  function RunLengths(acc: seq<nat>, r: Run): (s: seq<nat>)
    requires LegalRun(r) && (r.Again? ==> acc != [])
    ensures |s| >= 1
  {
    match r
    case One(l) => [l]
    case Again(n) => Repeat(acc[|acc| - 1], n)
    case Zeros(n) => Repeat(0, n)
    case ManyZeros(n) => Repeat(0, n)
  }

  predicate LegalRuns(acc: seq<nat>, runs: seq<Run>)
    decreases |runs|
  {
    runs != [] ==>
      && LegalRun(runs[0]) && (runs[0].Again? ==> acc != [])
      && LegalRuns(acc + RunLengths(acc, runs[0]), runs[1..])
  }

  function ExpandRuns(acc: seq<nat>, runs: seq<Run>): (r: seq<nat>)
    requires LegalRuns(acc, runs)
    ensures |r| >= |acc| + |runs|
    decreases |runs|
  {
    if runs == [] then acc else ExpandRuns(acc + RunLengths(acc, runs[0]), runs[1..])
  }

  predicate RunsCoded(cl: seq<nat>, runs: seq<Run>) {
    forall i :: 0 <= i < |runs| ==> LegalRun(runs[i]) && Coded(cl, RunSymbol(runs[i]))
  }

  function RunBits(cl: seq<nat>, r: Run): seq<Bit>
    requires Valid(cl) && LegalRun(r) && Coded(cl, RunSymbol(r))
  {
    Codeword(cl, RunSymbol(r)) + RunExtra(r)
  }

  function RunsBits(cl: seq<nat>, runs: seq<Run>): seq<Bit>
    requires Valid(cl) && RunsCoded(cl, runs)
  {
    if runs == [] then [] else RunBits(cl, runs[0]) + RunsBits(cl, runs[1..])
  }

  // ---- What the header loop does ----

  datatype Step = Bad | More(pos: nat, acc: seq<nat>)

  /** The count after a repeat symbol: base plus extra bits, if there is room for it. */
  function RepeatAt(bits: seq<Bit>, pos: nat, extra: nat, base: nat, v: nat, acc: seq<nat>, total: nat): (r: Step)
    requires base >= 1
    ensures r.More? ==> pos <= r.pos <= |bits| && |acc| < |r.acc| <= total
  {
    if pos + extra > |bits| then Bad else
      var n := base + LsbValue(bits[pos..pos + extra]);
      if n > total - |acc| then Bad else More(pos + extra, acc + Repeat(v, n))
  }

  function StepAt(bits: seq<Bit>, pos: nat, ct: Table, acc: seq<nat>, total: nat): (r: Step)
    requires |acc| < total
    ensures r.More? ==> pos < r.pos <= |bits| && |acc| < |r.acc| <= total
  {
    match Decode(ct, bits, pos)
    case None => Bad
    case Some((symbol, n)) =>
      var p := pos + n;
      if symbol <= 15 then More(p, acc + [symbol])
      else if symbol == 16 then if acc == [] then Bad else RepeatAt(bits, p, 2, 3, acc[|acc| - 1], acc, total)
      else if symbol == 17 then RepeatAt(bits, p, 3, 3, 0, acc, total)
      else if symbol == 18 then RepeatAt(bits, p, 7, 11, 0, acc, total)
      else Bad
  }

  function ReadLengths(bits: seq<Bit>, pos: nat, ct: Table, acc: seq<nat>, total: nat): (r: Option<(nat, seq<nat>)>)
    requires |acc| <= total && pos <= |bits|
    ensures r.Some? ==> pos <= r.value.0 <= |bits| && |r.value.1| == total
    decreases total - |acc|
  {
    if |acc| == total then Some((pos, acc)) else
      match StepAt(bits, pos, ct, acc, total)
      case Bad => None
      case More(p, a) => ReadLengths(bits, p, ct, a, total)
  }

  // ---- Every legal run-length coding is read back as what it stands for ----

  lemma RunExtraBack(bits: seq<Bit>, pos: nat, r: Run, extra: nat, base: nat, v: nat, acc: seq<nat>, total: nat)
    requires LegalRun(r) && !r.One? && base >= 1 && base <= r.count < base + Pow2(extra)
    requires RunExtra(r) == LsbBits(r.count - base, extra) && StartsWith(bits, pos, RunExtra(r))
    requires |acc| + r.count <= total
    ensures RepeatAt(bits, pos, extra, base, v, acc, total) == More(pos + |RunExtra(r)|, acc + Repeat(v, r.count))
  {
    hide LsbBits, LsbValue, RunExtra;
    LsbRoundTrip(r.count - base, extra);
  }

  lemma RunComplete(bits: seq<Bit>, pos: nat, cl: seq<nat>, r: Run, acc: seq<nat>, total: nat)
    requires Valid(cl) && Kraft(cl) <= FULL && LegalRun(r) && Coded(cl, RunSymbol(r)) && (r.Again? ==> acc != [])
    requires StartsWith(bits, pos, RunBits(cl, r))
    requires |acc| + |RunLengths(acc, r)| <= total
    ensures StepAt(bits, pos, CanonicalTable(cl), acc, total)
            == More(pos + |RunBits(cl, r)|, acc + RunLengths(acc, r))
  {
    hide Decode, CanonicalTable, Codeword, Kraft, RepeatAt, LsbBits;
    var w := Codeword(cl, RunSymbol(r));
    StartsWithSplit(bits, pos, w, RunExtra(r));
    DecodeFinds(cl, RunSymbol(r), bits, pos);
    var p := pos + |w|;
    assert Pow2(2) == 4 && Pow2(3) == 8 && Pow2(7) == 128;
    match r
    case One(_) =>
    case Again(_) => RunExtraBack(bits, p, r, 2, 3, acc[|acc| - 1], acc, total);
    case Zeros(_) => RunExtraBack(bits, p, r, 3, 3, 0, acc, total);
    case ManyZeros(_) => RunExtraBack(bits, p, r, 7, 11, 0, acc, total);
  }

  lemma {:induction false} RunsComplete(bits: seq<Bit>, pos: nat, cl: seq<nat>, runs: seq<Run>, acc: seq<nat>,
                                        total: nat)
    requires Valid(cl) && Kraft(cl) <= FULL && RunsCoded(cl, runs) && LegalRuns(acc, runs) && pos <= |bits|
    requires |ExpandRuns(acc, runs)| == total
    requires StartsWith(bits, pos, RunsBits(cl, runs))
    ensures |acc| <= total
    ensures ReadLengths(bits, pos, CanonicalTable(cl), acc, total)
            == Some((pos + |RunsBits(cl, runs)|, ExpandRuns(acc, runs)))
    decreases |runs|
  {
    hide StepAt, CanonicalTable, Kraft, RunBits, RunLengths;
    if runs != [] {
      var w := RunBits(cl, runs[0]);
      StartsWithSplit(bits, pos, w, RunsBits(cl, runs[1..]));
      RunComplete(bits, pos, cl, runs[0], acc, total);
      RunsComplete(bits, pos + |w|, cl, runs[1..], acc + RunLengths(acc, runs[0]), total);
    }
  }

  // ---- Whatever is read is what some legal run-length coding stands for ----

  lemma RepeatSound(bits: seq<Bit>, pos: nat, extra: nat, base: nat, v: nat, acc: seq<nat>, total: nat) returns (n: nat)
    requires base >= 1 && RepeatAt(bits, pos, extra, base, v, acc, total).More?
    ensures base <= n < base + Pow2(extra) && StartsWith(bits, pos, LsbBits(n - base, extra))
    ensures RepeatAt(bits, pos, extra, base, v, acc, total) == More(pos + extra, acc + Repeat(v, n))
  {
    hide LsbBits;
    var w := bits[pos..pos + extra];
    LsbBitsOfValue(w);
    n := base + LsbValue(w);
  }

  lemma RunSound(bits: seq<Bit>, pos: nat, cl: seq<nat>, acc: seq<nat>, total: nat) returns (r: Run)
    requires Valid(cl) && |acc| < total && StepAt(bits, pos, CanonicalTable(cl), acc, total).More?
    ensures LegalRun(r) && Coded(cl, RunSymbol(r)) && (r.Again? ==> acc != [])
    ensures StartsWith(bits, pos, RunBits(cl, r))
    ensures StepAt(bits, pos, CanonicalTable(cl), acc, total)
            == More(pos + |RunBits(cl, r)|, acc + RunLengths(acc, r))
  {
    hide Decode, CanonicalTable, Codeword, RepeatAt, LsbBits;
    var (symbol, n) := Decode(CanonicalTable(cl), bits, pos).value;
    DecodeSound(cl, bits, pos);
    var p := pos + n;
    assert Pow2(2) == 4 && Pow2(3) == 8 && Pow2(7) == 128;
    if symbol <= 15 {
      r := One(symbol);
    } else if symbol == 16 {
      var count := RepeatSound(bits, p, 2, 3, acc[|acc| - 1], acc, total);
      r := Again(count);
    } else if symbol == 17 {
      var count := RepeatSound(bits, p, 3, 3, 0, acc, total);
      r := Zeros(count);
    } else {
      var count := RepeatSound(bits, p, 7, 11, 0, acc, total);
      r := ManyZeros(count);
    }
    StartsWithSplit(bits, pos, Codeword(cl, symbol), RunExtra(r));
  }

  lemma {:induction false} RunsSound(bits: seq<Bit>, pos: nat, cl: seq<nat>, acc: seq<nat>, total: nat)
    returns (runs: seq<Run>)
    requires Valid(cl) && |acc| <= total && pos <= |bits|
    requires ReadLengths(bits, pos, CanonicalTable(cl), acc, total).Some?
    ensures RunsCoded(cl, runs) && LegalRuns(acc, runs)
    ensures StartsWith(bits, pos, RunsBits(cl, runs))
    ensures ReadLengths(bits, pos, CanonicalTable(cl), acc, total)
            == Some((pos + |RunsBits(cl, runs)|, ExpandRuns(acc, runs)))
    decreases total - |acc|
  {
    hide StepAt, CanonicalTable, RunBits, RunLengths;
    if |acc| == total {
      runs := [];
    } else {
      var r := RunSound(bits, pos, cl, acc, total);
      var rest := RunsSound(bits, pos + |RunBits(cl, r)|, cl, acc + RunLengths(acc, r), total);
      runs := [r] + rest;
      assert runs[1..] == rest;
      StartsWithSplit(bits, pos, RunBits(cl, r), RunsBits(cl, rest));
    }
  }

  /** Lengths read by a run-length coding are lengths a table may have. */
  lemma {:induction false} ExpandedLengthsSmall(acc: seq<nat>, runs: seq<Run>)
    requires LegalRuns(acc, runs) && forall i :: 0 <= i < |acc| ==> acc[i] <= 15
    ensures forall i :: 0 <= i < |ExpandRuns(acc, runs)| ==> ExpandRuns(acc, runs)[i] <= 15
    decreases |runs|
  {
    if runs != [] {
      ExpandedLengthsSmall(acc + RunLengths(acc, runs[0]), runs[1..]);
    }
  }

  // ---- The in-place header loops ----

  method ReadCodeLengths(reader: BitReader.Reader, n: nat) returns (ok: bool, cl: seq<nat>)
    requires reader.Valid() && n <= 19 && reader.bit <= 8 * |reader.data|
    modifies reader
    ensures ok <==> old(reader.bit) + 3 * n <= 8 * |reader.data|
    ensures ok ==> reader.bit == old(reader.bit) + 3 * n
                   && cl == CodeLengthsAt(Stream(reader.data), old(reader.bit), n)
  {
    hide Stream, LsbValue, Order, Place;
    ghost var bits, pos := Stream(reader.data), reader.bit;
    var lengths := new nat[19](_ => 0);
    for i := 0 to n
      invariant reader.bit == pos + 3 * i <= |bits|
      invariant forall s :: 0 <= s < 19 ==>
                              lengths[s] == if Place(s) < i then
                                  LsbValue(bits[pos + 3 * Place(s)..pos + 3 * Place(s) + 3]) else 0
    {
      var value;
      ok, value := reader.Read(3);
      if !ok {
        return false, [];
      }
      OrderPlace(i);
      lengths[Order(i)] := value;
      forall s: nat | s < 19
        ensures Place(s) == i <==> s == Order(i)
      {
        OrderPlace(s);
      }
    }
    cl := lengths[..];
    ok := true;
  }

  method ReadRepeat(reader: BitReader.Reader, extra: nat, base: nat, v: nat, acc: seq<nat>, total: nat)
    returns (ok: bool, lengths: seq<nat>)
    requires reader.Valid() && base >= 1 && extra <= 7 && |acc| <= total
    modifies reader
    ensures var r := RepeatAt(Stream(reader.data), old(reader.bit), extra, base, v, acc, total);
            (ok <==> r.More?) && (ok ==> r == More(reader.bit, lengths))
  {
    hide Stream, LsbValue;
    lengths := acc;
    var value;
    ok, value := reader.Read(extra);
    if !ok {
      return;
    }
    var repeat := value + base;
    if repeat > total - |acc| {
      return false, acc;
    }
    var left := repeat;
    while left > 0
      invariant 0 <= left <= repeat && lengths == acc + Repeat(v, repeat - left)
    {
      lengths := lengths + [v];
      left := left - 1;
    }
  }

  /** Reads code lengths and runs of code lengths until all `total` are there. */
  method ReadAllLengths(reader: BitReader.Reader, ct: Table, total: nat) returns (ok: bool, lengths: seq<nat>)
    requires reader.Valid() && reader.bit <= 8 * |reader.data|
    modifies reader
    ensures var r := ReadLengths(Stream(reader.data), old(reader.bit), ct, [], total);
            (ok <==> r.Some?) && (ok ==> r == Some((reader.bit, lengths)))
  {
    hide Stream, Decode, RepeatAt;
    lengths := [];
    ghost var bits := Stream(reader.data);
    ghost var want := ReadLengths(bits, reader.bit, ct, [], total);
    while |lengths| < total
      invariant |lengths| <= total && reader.bit <= |bits|
      invariant want == ReadLengths(bits, reader.bit, ct, lengths, total)
    {
      ghost var pos := reader.bit;
      var symbol := Read(reader, ct);
      if symbol < 0 {
        return false, lengths;
      } else if symbol <= 15 {
        lengths := lengths + [symbol];
      } else {
        if symbol == 16 {
          if lengths == [] {
            return false, lengths;
          }
          ok, lengths := ReadRepeat(reader, 2, 3, lengths[|lengths| - 1], lengths, total);
        } else if symbol == 17 {
          ok, lengths := ReadRepeat(reader, 3, 3, 0, lengths, total);
        } else if symbol == 18 {
          ok, lengths := ReadRepeat(reader, 7, 11, 0, lengths, total);
        } else {
          ok := false;
        }
        if !ok {
          return;
        }
      }
    }
    ok := true;
  }
}
