/** Canonical Huffman codes: construction from code lengths, and decoding.

    A length vector gives every symbol a code length (0: the symbol has no code).
    `Codeword` is the reference definition: symbols are ordered by (length, index)
    and the code of a symbol is the sum, over the symbols before it, of the share
    of the code space each of them takes. */
module Huffman {
  import opened Bits
  import BitReader

  const MAX_BITS: nat := 15
  const MAX_SYMBOLS: nat := 288
  /** The size of the code space in units of the shortest possible share. */
  const FULL: nat := 32768

  datatype Entry = Entry(code: nat, length: nat, symbol: nat)
  type Table = seq<Entry>

  predicate Valid(ls: seq<nat>) {
    |ls| <= MAX_SYMBOLS && forall i :: 0 <= i < |ls| ==> ls[i] <= MAX_BITS
  }

  predicate Coded(ls: seq<nat>, s: nat) {
    s < |ls| && ls[s] != 0
  }

  /** Symbol t comes before s in canonical order. */
  predicate Precedes(ls: seq<nat>, t: nat, s: nat)
    requires t < |ls| && s < |ls|
  {
    ls[t] != 0 && (ls[t] < ls[s] || (ls[t] == ls[s] && t < s))
  }

  /** The share of the code space a code of length l takes. */
  function Weight(l: nat): nat
    requires l <= MAX_BITS
  {
    if l == 0 then 0 else Pow2(MAX_BITS - l)
  }

  function KraftUpTo(ls: seq<nat>, n: nat): nat
    requires Valid(ls) && n <= |ls|
  {
    if n == 0 then 0 else KraftUpTo(ls, n - 1) + Weight(ls[n - 1])
  }

  /** The Kraft sum, scaled so that a complete code sums to FULL. */
  function Kraft(ls: seq<nat>): nat
    requires Valid(ls)
  {
    KraftUpTo(ls, |ls|)
  }

  function CodeUpTo(ls: seq<nat>, s: nat, n: nat): nat
    requires Valid(ls) && s < |ls| && n <= |ls|
  {
    if n == 0 then 0
    else CodeUpTo(ls, s, n - 1)
         + if Precedes(ls, n - 1, s) then Pow2(ls[s] - ls[n - 1]) else 0
  }

  function Code(ls: seq<nat>, s: nat): nat
    requires Valid(ls) && s < |ls|
  {
    CodeUpTo(ls, s, |ls|)
  }

  /** The codeword of s, in the order its bits appear in the stream. */
  function Codeword(ls: seq<nat>, s: nat): (w: seq<Bit>)
    requires Valid(ls) && s < |ls|
    ensures |w| == ls[s]
  {
    MsbBits(Code(ls, s), ls[s])
  }

  /** No codeword is a prefix of another one. */
  ghost predicate PrefixFree(ls: seq<nat>)
    requires Valid(ls)
  {
    forall s: nat, t: nat :: Coded(ls, s) && Coded(ls, t) && s != t ==> !(Codeword(ls, s) <= Codeword(ls, t))
  }

  // ---- Prefix-freeness is the Kraft inequality ----

  function StartUpTo(ls: seq<nat>, s: nat, n: nat): nat
    requires Valid(ls) && s < |ls| && n <= |ls|
  {
    if n == 0 then 0
    else StartUpTo(ls, s, n - 1)
         + if Precedes(ls, n - 1, s) then Weight(ls[n - 1]) else 0
  }

  function Start(ls: seq<nat>, s: nat): nat
    requires Valid(ls) && s < |ls|
  {
    StartUpTo(ls, s, |ls|)
  }

  lemma ScaledStep(c: nat, p: nat, w: nat, q: nat)
    requires q == p * w
    ensures (c + p) * w == c * w + q
  {
  }

  lemma {:induction false} StartIsScaledCode(ls: seq<nat>, s: nat, n: nat)
    requires Valid(ls) && Coded(ls, s) && n <= |ls|
    ensures StartUpTo(ls, s, n) == CodeUpTo(ls, s, n) * Weight(ls[s])
  {
    if n > 0 {
      StartIsScaledCode(ls, s, n - 1);
      if Precedes(ls, n - 1, s) {
        Pow2Sum(ls[s] - ls[n - 1], MAX_BITS - ls[s]);
        ScaledStep(CodeUpTo(ls, s, n - 1), Pow2(ls[s] - ls[n - 1]), Weight(ls[s]), Weight(ls[n - 1]));
      }
    }
  }

  lemma {:induction false} LaterStartsAfter(ls: seq<nat>, s: nat, t: nat, n: nat)
    requires Valid(ls) && s < |ls| && t < |ls| && n <= |ls| && Precedes(ls, s, t)
    ensures StartUpTo(ls, t, n) >= StartUpTo(ls, s, n) + if s < n then Weight(ls[s]) else 0
  {
    if n > 0 {
      LaterStartsAfter(ls, s, t, n - 1);
    }
  }

  lemma {:induction false} EndsWithinKraft(ls: seq<nat>, s: nat, n: nat)
    requires Valid(ls) && Coded(ls, s) && n <= |ls|
    ensures StartUpTo(ls, s, n) + (if s < n then Weight(ls[s]) else 0) <= KraftUpTo(ls, n)
  {
    if n > 0 {
      EndsWithinKraft(ls, s, n - 1);
    }
  }

  lemma FullIsPow2()
    ensures Pow2(MAX_BITS) == FULL
  {
    Pow2Values();
  }

  lemma WeightFills(l: nat)
    requires 1 <= l <= MAX_BITS
    ensures Pow2(l) * Weight(l) == FULL && Weight(l) > 0
  {
    Pow2Sum(l, MAX_BITS - l);
    FullIsPow2();
  }

  /** Within the Kraft bound the code number fits its length. */
  lemma CodeFits(ls: seq<nat>, s: nat)
    requires Valid(ls) && Coded(ls, s) && Kraft(ls) <= FULL
    ensures Code(ls, s) < Pow2(ls[s])
  {
    EndsWithinKraft(ls, s, |ls|);
    StartIsScaledCode(ls, s, |ls|);
    WeightFills(ls[s]);
    if Code(ls, s) >= Pow2(ls[s]) {
      MulMono(Pow2(ls[s]), Code(ls, s), Weight(ls[s]));
    }
  }

  lemma SameBitsIffSame(a: nat, b: nat, n: nat)
    requires a < Pow2(n) && b < Pow2(n)
    ensures MsbBits(a, n) == MsbBits(b, n) <==> a == b
  {
    if MsbBits(a, n) == MsbBits(b, n) {
      MsbInjective(a, b, n);
    }
  }

  lemma StartsWithIff(c: nat, y: nat, l: nat, bs: seq<Bit>)
    requires c < Pow2(l) && y < Pow2(l) && l <= |bs| && bs[..l] == MsbBits(y, l)
    ensures MsbBits(c, l) <= bs <==> y == c
  {
    SameBitsIffSame(y, c, l);
  }

  /** Among the points x of a space of d bits, those whose bits start with the l-bit
      code c are the c-th run of equal length. */
  lemma BlockIsInterval(c: nat, l: nat, x: nat, d: nat)
    requires l <= d && c < Pow2(l) && x < Pow2(d)
    ensures MsbBits(c, l) <= MsbBits(x, d)
            <==> c * Pow2(d - l) <= x < c * Pow2(d - l) + Pow2(d - l)
  {
    hide MsbBits, Shr;
    MsbPrefix(x, d, l);
    ShrFits(x, d - l, l);
    StartsWithIff(c, Shr(x, d - l), l, MsbBits(x, d));
    ShrIsRun(x, d - l, c);
  }

  /** A prefix of a codeword covers the start of that codeword's share. */
  lemma PrefixCoversStart(ls: seq<nat>, s: nat, t: nat, d: nat)
    requires Valid(ls) && Coded(ls, s) && Coded(ls, t) && Kraft(ls) <= FULL
    requires Codeword(ls, s) <= Codeword(ls, t) && Pow2(d) == FULL && d == MAX_BITS
    ensures Start(ls, s) <= Start(ls, t) < Start(ls, s) + Weight(ls[s])
  {
    hide MsbBits, StartUpTo, CodeUpTo, KraftUpTo, Pow2;
    CodeFits(ls, s);
    CodeFits(ls, t);
    var x := Start(ls, t);
    EndsWithinKraft(ls, t, |ls|);
    StartIsScaledCode(ls, t, |ls|);
    StartIsScaledCode(ls, s, |ls|);
    WeightFills(ls[t]);
    BlockIsInterval(Code(ls, t), ls[t], x, d);
    PrefixTransitive(Codeword(ls, s), Codeword(ls, t), MsbBits(x, d));
    BlockIsInterval(Code(ls, s), ls[s], x, d);
  }

  lemma PrefixTransitive<T>(a: seq<T>, b: seq<T>, c: seq<T>)
    requires a <= b && b <= c
    ensures a <= c
  {
  }

  /** Within the Kraft bound the code is prefix-free. */
  lemma KraftGivesPrefixFree(ls: seq<nat>)
    requires Valid(ls) && Kraft(ls) <= FULL
    ensures PrefixFree(ls)
  {
    forall s: nat, t: nat | Coded(ls, s) && Coded(ls, t) && s != t
      ensures !(Codeword(ls, s) <= Codeword(ls, t))
    {
      if Codeword(ls, s) <= Codeword(ls, t) {
        NoPrefix(ls, s, t);
      }
    }
  }

  lemma NoPrefix(ls: seq<nat>, s: nat, t: nat)
    requires Valid(ls) && Kraft(ls) <= FULL
    requires Coded(ls, s) && Coded(ls, t) && Codeword(ls, s) <= Codeword(ls, t)
    ensures s == t
  {
    FullIsPow2();
    PrefixCoversStart(ls, s, t, MAX_BITS);
    WeightFills(ls[t]);
    if Precedes(ls, s, t) {
      LaterStartsAfter(ls, s, t, |ls|);
    } else if Precedes(ls, t, s) {
      LaterStartsAfter(ls, t, s, |ls|);
    }
  }

  ghost function Range(lo: nat, hi: nat): (r: set<nat>)
    ensures forall x: nat :: x in r <==> lo <= x < hi
    ensures lo <= hi ==> |r| == hi - lo
    decreases hi
  {
    if lo < hi then Range(lo, hi - 1) + {hi - 1} else {}
  }

  /** The code number as far as it fits the codeword. */
  function StoredCode(ls: seq<nat>, s: nat): (c: nat)
    requires Valid(ls) && s < |ls|
    ensures c < Pow2(ls[s])
  {
    Code(ls, s) % Pow2(ls[s])
  }

  /** The c-th run of w consecutive points. */
  ghost function Run(c: nat, w: nat): (r: set<nat>)
    ensures forall x: nat :: x in r <==> c * w <= x < c * w + w
    ensures |r| == w
  {
    var lo := c * w;
    Range(lo, lo + w)
  }

  /** The share of the code space under a codeword. */
  ghost function Share(ls: seq<nat>, s: nat): set<nat>
    requires Valid(ls) && s < |ls|
  {
    if ls[s] == 0 then {} else Run(StoredCode(ls, s), Weight(ls[s]))
  }

  ghost function Union(sets: seq<set<nat>>): (u: set<nat>)
    ensures forall x :: x in u ==> exists i :: 0 <= i < |sets| && x in sets[i]
  {
    if sets == [] then {} else Union(sets[..|sets| - 1]) + sets[|sets| - 1]
  }

  ghost function Sizes(sets: seq<set<nat>>): nat {
    if sets == [] then 0 else Sizes(sets[..|sets| - 1]) + |sets[|sets| - 1]|
  }

  lemma {:induction false} DisjointUnionSize(sets: seq<set<nat>>)
    requires forall i, j :: 0 <= i < j < |sets| ==> sets[i] !! sets[j]
    ensures |Union(sets)| == Sizes(sets)
  {
    if sets != [] {
      var rest, last := sets[..|sets| - 1], sets[|sets| - 1];
      DisjointUnionSize(rest);
      assert Union(rest) !! last;
      assert Union(sets) == Union(rest) + last;
    }
  }

  ghost function Shares(ls: seq<nat>, n: nat): (r: seq<set<nat>>)
    requires Valid(ls) && n <= |ls|
    ensures |r| == n
    ensures forall i :: 0 <= i < n ==> r[i] == Share(ls, i)
  {
    seq(n, i requires 0 <= i < n => Share(ls, i))
  }

  lemma ShareFits(c: nat, p: nat, w: nat)
    requires c < p
    ensures c * w + w <= p * w
  {
    MulMono(c + 1, p, w);
  }

  lemma ShareBelowFull(ls: seq<nat>, s: nat, x: nat)
    requires Valid(ls) && Coded(ls, s) && x in Share(ls, s)
    ensures x < FULL
  {
    WeightFills(ls[s]);
    ShareFits(StoredCode(ls, s), Pow2(ls[s]), Weight(ls[s]));
  }

  lemma CodewordCovers(ls: seq<nat>, s: nat, x: nat, d: nat)
    requires Valid(ls) && Coded(ls, s) && x in Share(ls, s) && d == MAX_BITS && Pow2(d) == FULL
    ensures Codeword(ls, s) <= MsbBits(x, d)
  {
    ShareBelowFull(ls, s, x);
    MsbBitsMod(Code(ls, s), ls[s]);
    BlockIsInterval(StoredCode(ls, s), ls[s], x, d);
  }

  /** Two codewords whose shares meet are comparable. */
  lemma OverlapIsPrefix(ls: seq<nat>, s: nat, t: nat, x: nat, d: nat)
    requires Valid(ls) && Coded(ls, s) && Coded(ls, t) && d == MAX_BITS && Pow2(d) == FULL
    requires x in Share(ls, s) && x in Share(ls, t)
    ensures Codeword(ls, s) <= Codeword(ls, t) || Codeword(ls, t) <= Codeword(ls, s)
  {
    CodewordCovers(ls, s, x, d);
    CodewordCovers(ls, t, x, d);
    ComparablePrefixes(Codeword(ls, s), Codeword(ls, t), MsbBits(x, d));
  }

  lemma SharesDisjoint(ls: seq<nat>, s: nat, t: nat)
    requires Valid(ls) && PrefixFree(ls) && s < |ls| && t < |ls| && s != t
    ensures Share(ls, s) !! Share(ls, t)
  {
    if x :| x in Share(ls, s) && x in Share(ls, t) {
      FullIsPow2();
      OverlapIsPrefix(ls, s, t, x, MAX_BITS);
    }
  }

  lemma ShareSize(ls: seq<nat>, s: nat)
    requires Valid(ls) && s < |ls|
    ensures |Share(ls, s)| == Weight(ls[s])
  {
  }

  lemma {:induction false} SharesSum(ls: seq<nat>, n: nat)
    requires Valid(ls) && n <= |ls|
    ensures Sizes(Shares(ls, n)) == KraftUpTo(ls, n)
  {
    if n > 0 {
      SharesSum(ls, n - 1);
      ShareSize(ls, n - 1);
      assert Shares(ls, n)[..n - 1] == Shares(ls, n - 1);
    }
  }

  lemma ComparablePrefixes<T>(a: seq<T>, b: seq<T>, c: seq<T>)
    requires a <= c && b <= c
    ensures a <= b || b <= a
  {
    if |a| <= |b| {
      assert a == b[..|a|];
    } else {
      assert b == a[..|b|];
    }
  }

  lemma BoundedSetSize(a: set<nat>, bound: nat)
    requires forall x :: x in a ==> x < bound
    ensures |a| <= bound
  {
    var all := Range(0, bound);
    assert all == a + (all - a);
  }

  /** The Kraft inequality: a prefix-free code never takes more than the code space. */
  lemma PrefixFreeGivesKraft(ls: seq<nat>)
    requires Valid(ls) && PrefixFree(ls)
    ensures Kraft(ls) <= FULL
  {
    var shares := Shares(ls, |ls|);
    forall i, j | 0 <= i < j < |ls|
      ensures shares[i] !! shares[j]
    {
      SharesDisjoint(ls, i, j);
    }
    DisjointUnionSize(shares);
    SharesSum(ls, |ls|);
    forall x | x in Union(shares)
      ensures x < FULL
    {
      var i :| 0 <= i < |shares| && x in shares[i];
      ShareBelowFull(ls, i, x);
    }
    BoundedSetSize(Union(shares), FULL);
  }

  lemma PrefixFreeIffKraft(ls: seq<nat>)
    requires Valid(ls)
    ensures PrefixFree(ls) <==> Kraft(ls) <= FULL
  {
    if Kraft(ls) <= FULL {
      KraftGivesPrefixFree(ls);
    }
    if PrefixFree(ls) {
      PrefixFreeGivesKraft(ls);
    }
  }

  // ---- Construction ----

  /** Symbols before index n whose length is l. */
  function CountUpTo(ls: seq<nat>, l: nat, n: nat): nat
    requires n <= |ls|
  {
    if n == 0 then 0 else CountUpTo(ls, l, n - 1) + if ls[n - 1] == l then 1 else 0
  }

  /** What the symbols shorter than l among the first n take, in units of a code of length l. */
  function FirstUpTo(ls: seq<nat>, l: nat, n: nat): nat
    requires n <= |ls|
  {
    if n == 0 then 0
    else FirstUpTo(ls, l, n - 1) + if 0 < ls[n - 1] < l then Pow2(l - ls[n - 1]) else 0
  }

  /** The code number of s counts on from the first code of its length. */
  lemma {:induction false} CodeIsFirstPlusRank(ls: seq<nat>, s: nat, n: nat)
    requires Valid(ls) && Coded(ls, s) && n <= |ls|
    ensures CodeUpTo(ls, s, n)
            == FirstUpTo(ls, ls[s], n) + CountUpTo(ls, ls[s], if n < s then n else s)
  {
    if n > 0 {
      CodeIsFirstPlusRank(ls, s, n - 1);
    }
  }

  lemma {:induction false} FirstStep(ls: seq<nat>, l: nat, n: nat)
    requires 2 <= l && n <= |ls|
    ensures FirstUpTo(ls, l, n) == 2 * (FirstUpTo(ls, l - 1, n) + CountUpTo(ls, l - 1, n))
  {
    if n > 0 {
      FirstStep(ls, l, n - 1);
      Pow2Values();
      if 0 < ls[n - 1] < l {
        assert Pow2(l - ls[n - 1]) == 2 * Pow2(l - 1 - ls[n - 1]);
      }
    }
  }

  lemma {:induction false} FirstOfOne(ls: seq<nat>, n: nat)
    requires n <= |ls|
    ensures FirstUpTo(ls, 1, n) == 0
  {
    if n > 0 {
      FirstOfOne(ls, n - 1);
    }
  }

  function EntryOf(ls: seq<nat>, s: nat): Entry
    requires Valid(ls) && s < |ls|
  {
    Entry(LsbValue(Codeword(ls, s)), ls[s], s)
  }

  function TableUpTo(ls: seq<nat>, n: nat): (t: Table)
    requires Valid(ls) && n <= |ls|
    ensures |t| <= n
  {
    if n == 0 then [] else TableUpTo(ls, n - 1) + if ls[n - 1] != 0 then [EntryOf(ls, n - 1)] else []
  }

  /** One entry per coded symbol, in symbol order, holding its codeword as read from the stream. */
  function CanonicalTable(ls: seq<nat>): Table
    requires Valid(ls)
  {
    TableUpTo(ls, |ls|)
  }

  method ReverseBits(value: nat, count: nat) returns (result: nat)
    requires count <= MAX_BITS
    ensures result == LsbValue(MsbBits(value, count))
  {
    result := 0;
    for i := 0 to count
      invariant result == LsbValue(MsbBits(value, i))
    {
      MsbTop(value, i);
      assert MsbBits(value, i + 1)[1..] == MsbBits(value, i);
      result := 2 * result + BitOf(value, i);
    }
  }

  lemma WrappedCode(c: nat, n: nat, l: nat)
    requires l <= 16 && n == c % 0x1_0000
    ensures MsbBits(n, l) == MsbBits(c, l)
  {
    Pow2Values();
    Pow2Sum(l, 16 - l);
    MsbBitsMod(c, l);
    MsbBitsMod(n, l);
    ModMod(c, Pow2(l), Pow2(16 - l));
  }

  lemma ModMod(c: nat, a: nat, b: nat)
    requires a > 0 && b > 0
    ensures a * b > 0 && (c % (a * b)) % a == c % a
  {
    MulAtLeast(a, b);
    var q, n := c / (a * b), c % (a * b);
    var p, r := n / a, n % a;
    assert c == (a * b) * q + n && n == a * p + r;
    MulAssoc(a, b, q);
    Distribute(a, b * q, p);
    DivUnique(c, a, b * q + p, r);
  }

  /** Builds the table; fails on too many symbols, an over-long length, or no code at all.
      The code counters are 16 bits wide and may wrap. */
  method Build(lengths: seq<nat>) returns (ok: bool, table: Table)
    ensures ok <==> Valid(lengths) && exists s: nat :: Coded(lengths, s)
    ensures ok ==> table == CanonicalTable(lengths)
  {
    table := [];
    if |lengths| > MAX_SYMBOLS {
      return false, [];
    }
    var blCount;
    ok, blCount := CountLengths(lengths);
    if ok {
      var nextCode := FirstCodes(lengths, blCount);
      table := AssignCodes(lengths, nextCode);
      ok := |table| != 0;
      TableEmptyIff(lengths, |lengths|);
    }
  }

  method CountLengths(lengths: seq<nat>) returns (ok: bool, blCount: array<nat>)
    requires |lengths| <= MAX_SYMBOLS
    ensures ok <==> Valid(lengths)
    ensures fresh(blCount) && blCount.Length == 16
    ensures ok ==> blCount[0] == 0
    ensures ok ==> forall l :: 1 <= l <= MAX_BITS ==> blCount[l] == CountUpTo(lengths, l, |lengths|)
  {
    blCount := new nat[16](_ => 0);
    for i := 0 to |lengths|
      invariant forall k :: 0 <= k < i ==> lengths[k] <= MAX_BITS
      invariant blCount[0] == 0
      invariant forall l :: 1 <= l <= MAX_BITS ==> blCount[l] == CountUpTo(lengths, l, i)
    {
      if lengths[i] > MAX_BITS {
        return false, blCount;
      }
      if lengths[i] != 0 {
        blCount[lengths[i]] := blCount[lengths[i]] + 1;
      }
    }
    ok := true;
  }

  method FirstCodes(ghost lengths: seq<nat>, blCount: array<nat>) returns (nextCode: array<nat>)
    requires Valid(lengths) && blCount.Length == 16 && blCount[0] == 0
    requires forall l :: 1 <= l <= MAX_BITS ==> blCount[l] == CountUpTo(lengths, l, |lengths|)
    ensures fresh(nextCode) && nextCode.Length == 16
    ensures forall l :: 1 <= l <= MAX_BITS ==> nextCode[l] == FirstUpTo(lengths, l, |lengths|) % 0x1_0000
  {
    nextCode := new nat[16](_ => 0);
    var code: nat := 0;
    for bits := 1 to 16
      invariant code == if bits == 1 then 0 else FirstUpTo(lengths, bits - 1, |lengths|)
      invariant forall l :: 1 <= l < bits ==> nextCode[l] == FirstUpTo(lengths, l, |lengths|) % 0x1_0000
    {
      if bits == 1 {
        FirstOfOne(lengths, |lengths|);
      } else {
        FirstStep(lengths, bits, |lengths|);
      }
      code := (code + blCount[bits - 1]) * 2;
      nextCode[bits] := code % 0x1_0000;
    }
  }

  lemma CounterGivesCode(ls: seq<nat>, s: nat, n: nat)
    requires Valid(ls) && Coded(ls, s)
    requires n == CounterAt(ls, ls[s], s)
    ensures LsbValue(MsbBits(n, ls[s])) == LsbValue(Codeword(ls, s))
  {
    CodeIsFirstPlusRank(ls, s, |ls|);
    WrappedCode(Code(ls, s), n, ls[s]);
  }

  predicate CountersAt(lengths: seq<nat>, counters: seq<nat>, symbol: nat)
    requires Valid(lengths) && symbol <= |lengths| && |counters| == 16
  {
    forall l :: 1 <= l <= MAX_BITS ==> counters[l] == CounterAt(lengths, l, symbol)
  }

  /** The 16-bit code counter of length l when the symbols below `symbol` have their codes. */
  function CounterAt(lengths: seq<nat>, l: nat, symbol: nat): nat
    requires Valid(lengths) && symbol <= |lengths| && 1 <= l <= MAX_BITS
  {
    (FirstUpTo(lengths, l, |lengths|) + CountUpTo(lengths, l, symbol)) % 0x1_0000
  }

  lemma CounterNext(lengths: seq<nat>, l: nat, symbol: nat)
    requires Valid(lengths) && symbol < |lengths| && 1 <= l <= MAX_BITS
    ensures CounterAt(lengths, l, symbol + 1)
          == if lengths[symbol] != l then CounterAt(lengths, l, symbol)
             else (CounterAt(lengths, l, symbol) + 1) % 0x1_0000
  {
    hide FirstUpTo;
    WrapNext(FirstUpTo(lengths, l, |lengths|) + CountUpTo(lengths, l, symbol));
  }

  lemma WrapNext(v: nat)
    ensures (v % 0x1_0000 + 1) % 0x1_0000 == (v + 1) % 0x1_0000
  {
  }

  method AssignCodes(lengths: seq<nat>, nextCode: array<nat>) returns (table: Table)
    requires Valid(lengths) && nextCode.Length == 16
    requires forall l :: 1 <= l <= MAX_BITS ==> nextCode[l] == FirstUpTo(lengths, l, |lengths|) % 0x1_0000
    modifies nextCode
    ensures table == CanonicalTable(lengths)
  {
    hide Codeword, LsbValue, MsbBits, FirstUpTo, CounterAt;
    table := [];
    FirstCounters(lengths);
    for symbol := 0 to |lengths|
      invariant table == TableUpTo(lengths, symbol)
      invariant CountersAt(lengths, nextCode[..], symbol)
    {
      var length := lengths[symbol];
      forall l | 1 <= l <= MAX_BITS
        ensures CounterAt(lengths, l, symbol + 1)
             == if length == l then (CounterAt(lengths, l, symbol) + 1) % 0x1_0000 else CounterAt(lengths, l, symbol)
      {
        CounterNext(lengths, l, symbol);
      }
      if length != 0 {
        CounterGivesCode(lengths, symbol, nextCode[length]);
        var code := ReverseBits(nextCode[length], length);
        table := table + [Entry(code, length, symbol)];
        nextCode[length] := (nextCode[length] + 1) % 0x1_0000;
      }
    }
  }

  lemma FirstCounters(lengths: seq<nat>)
    requires Valid(lengths)
    ensures forall l :: 1 <= l <= MAX_BITS ==> CounterAt(lengths, l, 0) == FirstUpTo(lengths, l, |lengths|) % 0x1_0000
  {
    hide FirstUpTo;
  }

  lemma {:induction false} TableEmptyIff(ls: seq<nat>, n: nat)
    requires Valid(ls) && n <= |ls|
    ensures TableUpTo(ls, n) != [] <==> exists s: nat :: s < n && Coded(ls, s)
  {
    if n > 0 {
      TableEmptyIff(ls, n - 1);
      assert Coded(ls, n - 1) <==> ls[n - 1] != 0;
    }
  }

  // ---- Decoding ----

  /** The symbol of the first entry at or after i with this length and code. */
  function Lookup(table: Table, i: nat, length: nat, code: nat): Option<nat>
    requires i <= |table|
    decreases |table| - i
  {
    if i == |table| then None
    else if table[i].length == length && table[i].code == code then Some(table[i].symbol)
    else Lookup(table, i + 1, length, code)
  }

  /** Tries the codes of the given length and longer ones; yields symbol and code length. */
  function DecodeFrom(table: Table, bits: seq<Bit>, pos: nat, length: nat): Option<(nat, nat)>
    requires 1 <= length
    decreases MAX_BITS + 1 - length, |bits|
  {
    if length > MAX_BITS || pos + length > |bits| then None
    else
      match Lookup(table, 0, length, LsbValue(bits[pos..pos + length]))
      case Some(symbol) => Some((symbol, length))
      case None => DecodeFrom(table, bits, pos, length + 1)
  }

  function Decode(table: Table, bits: seq<Bit>, pos: nat): (r: Option<(nat, nat)>)
    ensures r.Some? ==> 1 <= r.value.1 <= MAX_BITS && pos + r.value.1 <= |bits|
  {
    DecodeBounds(table, bits, pos, 1);
    DecodeFrom(table, bits, pos, 1)
  }

  lemma {:induction false} DecodeBounds(table: Table, bits: seq<Bit>, pos: nat, length: nat)
    requires 1 <= length
    ensures var r := DecodeFrom(table, bits, pos, length);
            r.Some? ==> length <= r.value.1 <= MAX_BITS && pos + r.value.1 <= |bits|
    decreases MAX_BITS + 1 - length
  {
    if length <= MAX_BITS && pos + length <= |bits| {
      DecodeBounds(table, bits, pos, length + 1);
    }
  }

  method Scan(table: Table, length: nat, code: nat) returns (found: Option<nat>)
    ensures found == Lookup(table, 0, length, code)
  {
    for i := 0 to |table|
      invariant Lookup(table, 0, length, code) == Lookup(table, i, length, code)
    {
      if table[i].length == length && table[i].code == code {
        return Some(table[i].symbol);
      }
    }
    found := None;
  }

  lemma DecodeStops(table: Table, bits: seq<Bit>, pos: nat, length: nat)
    requires 1 <= length && (length > MAX_BITS || pos + length > |bits|)
    ensures DecodeFrom(table, bits, pos, length).None?
  {
  }

  lemma DecodeStep(table: Table, bits: seq<Bit>, pos: nat, length: nat, code: nat)
    requires 1 <= length <= MAX_BITS && pos + length <= |bits| && code == LsbValue(bits[pos..pos + length])
    ensures DecodeFrom(table, bits, pos, length)
            == var r := Lookup(table, 0, length, code);
               if r.Some? then Some((r.value, length)) else DecodeFrom(table, bits, pos, length + 1)
  {
  }

  /** Reads one symbol bit by bit; the table is scanned after every bit. */
  method Read(reader: BitReader.Reader, table: Table) returns (symbol: int)
    requires reader.Valid()
    modifies reader
    ensures var r := Decode(table, Stream(reader.data), old(reader.bit));
            if r.Some? then symbol == r.value.0 && reader.bit == old(reader.bit) + r.value.1 else symbol == -1
  {
    hide Lookup, LsbValue, Stream, DecodeFrom;
    var code: nat := 0;
    ghost var pos, bits := reader.bit, Stream(reader.data);
    ghost var want := Decode(table, bits, pos);
    var length := 1;
    while length <= MAX_BITS
      invariant 1 <= length <= MAX_BITS + 1
      invariant reader.bit == pos + length - 1
      invariant length > 1 ==> reader.bit <= |bits|
      invariant reader.bit <= |bits| ==> code == LsbValue(bits[pos..pos + length - 1])
      invariant want == DecodeFrom(table, bits, pos, length)
    {
      var ok, value := reader.Read(1);
      if !ok {
        DecodeStops(table, bits, pos, length);
        return -1;
      }
      LsbNext(bits, pos, pos + length - 1, pos + length);
      LsbOne(bits, pos + length - 1, pos + length);
      code := code + if value == 1 then Pow2(length - 1) else 0;
      DecodeStep(table, bits, pos, length, code);
      var found := Scan(table, length, code);
      if found.Some? {
        return found.value;
      }
      length := length + 1;
    }
    DecodeStops(table, bits, pos, length);
    symbol := -1;
  }

  lemma {:induction false} EntryInTable(ls: seq<nat>, s: nat, n: nat)
    requires Valid(ls) && Coded(ls, s) && s < n <= |ls|
    ensures EntryOf(ls, s) in TableUpTo(ls, n)
  {
    if s < n - 1 {
      EntryInTable(ls, s, n - 1);
    }
  }

  lemma {:induction false} TableEntry(ls: seq<nat>, e: Entry, n: nat)
    requires Valid(ls) && n <= |ls| && e in TableUpTo(ls, n)
    ensures Coded(ls, e.symbol) && e == EntryOf(ls, e.symbol)
  {
    if e in TableUpTo(ls, n - 1) {
      TableEntry(ls, e, n - 1);
    }
  }

  lemma {:induction false} LookupFinds(table: Table, i: nat, length: nat, code: nat)
    requires i <= |table|
    ensures var r := Lookup(table, i, length, code);
            if r.Some? then Entry(code, length, r.value) in table
            else forall k :: i <= k < |table| ==> !(table[k].length == length && table[k].code == code)
    decreases |table| - i
  {
    if i < |table| && !(table[i].length == length && table[i].code == code) {
      LookupFinds(table, i + 1, length, code);
    } else if i < |table| {
      assert table[i] == Entry(code, length, table[i].symbol);
    }
  }

  /** In a canonical table, a found symbol is one whose codeword was read. */
  lemma LookupSound(ls: seq<nat>, w: seq<Bit>)
    requires Valid(ls) && 1 <= |w| <= MAX_BITS
    ensures var r := Lookup(CanonicalTable(ls), 0, |w|, LsbValue(w));
            r.Some? ==> Coded(ls, r.value) && Codeword(ls, r.value) == w
  {
    var r := Lookup(CanonicalTable(ls), 0, |w|, LsbValue(w));
    LookupFinds(CanonicalTable(ls), 0, |w|, LsbValue(w));
    if r.Some? {
      TableEntry(ls, Entry(LsbValue(w), |w|, r.value), |ls|);
      LsbInjective(Codeword(ls, r.value), w);
    }
  }

  lemma LookupComplete(ls: seq<nat>, s: nat)
    requires Valid(ls) && Coded(ls, s)
    ensures Lookup(CanonicalTable(ls), 0, ls[s], LsbValue(Codeword(ls, s))).Some?
  {
    var e := EntryOf(ls, s);
    EntryInTable(ls, s, |ls|);
    LookupFinds(CanonicalTable(ls), 0, e.length, e.code);
  }

  /** A decoded symbol is one whose codeword is what was consumed, for every length vector. */
  lemma {:induction false} DecodeFromSound(ls: seq<nat>, bits: seq<Bit>, pos: nat, length: nat)
    requires Valid(ls) && 1 <= length
    ensures var r := DecodeFrom(CanonicalTable(ls), bits, pos, length);
            r.Some? ==> Coded(ls, r.value.0) && r.value.1 == ls[r.value.0]
                        && pos + r.value.1 <= |bits|
                        && bits[pos..pos + r.value.1] == Codeword(ls, r.value.0)
    decreases MAX_BITS + 1 - length
  {
    if length <= MAX_BITS && pos + length <= |bits| {
      LookupSound(ls, bits[pos..pos + length]);
      DecodeFromSound(ls, bits, pos, length + 1);
    }
  }

  lemma DecodeSound(ls: seq<nat>, bits: seq<Bit>, pos: nat)
    requires Valid(ls)
    ensures var r := Decode(CanonicalTable(ls), bits, pos);
            r.Some? ==> Coded(ls, r.value.0) && r.value.1 == ls[r.value.0]
                        && bits[pos..pos + r.value.1] == Codeword(ls, r.value.0)
  {
    DecodeFromSound(ls, bits, pos, 1);
  }

  lemma {:induction false} DecodeFromFinds(ls: seq<nat>, s: nat, bits: seq<Bit>, pos: nat, length: nat)
    requires Valid(ls) && PrefixFree(ls) && Coded(ls, s) && 1 <= length <= ls[s]
    requires StartsWith(bits, pos, Codeword(ls, s))
    ensures DecodeFrom(CanonicalTable(ls), bits, pos, length) == Some((s, ls[s]))
    decreases ls[s] - length
  {
    hide CanonicalTable, Codeword, Lookup, LsbValue;
    var w := bits[pos..pos + length];
    LookupSound(ls, w);
    assert w == Codeword(ls, s)[..length];
    if length < ls[s] {
      DecodeFromFinds(ls, s, bits, pos, length + 1);
    } else {
      LookupComplete(ls, s);
    }
  }

  /** With a prefix-free code, a stream that starts with the codeword of s yields s and moves past it. */
  lemma DecodeFinds(ls: seq<nat>, s: nat, bits: seq<Bit>, pos: nat)
    requires Valid(ls) && Kraft(ls) <= FULL && Coded(ls, s)
    requires StartsWith(bits, pos, Codeword(ls, s))
    ensures Decode(CanonicalTable(ls), bits, pos) == Some((s, ls[s]))
  {
    PrefixFreeIffKraft(ls);
    DecodeFromFinds(ls, s, bits, pos, 1);
  }

  ghost predicate ReadsBack(ls: seq<nat>, s: nat, bits: seq<Bit>)
    requires Valid(ls) && Coded(ls, s)
  {
    StartsWith(bits, 0, Codeword(ls, s)) ==> Decode(CanonicalTable(ls), bits, 0) == Some((s, ls[s]))
  }

  /** Every codeword at the front of any stream decodes to its own symbol. */
  ghost predicate DecodesEverySymbol(ls: seq<nat>)
    requires Valid(ls)
  {
    forall s: nat, bits: seq<Bit> :: Coded(ls, s) ==> ReadsBack(ls, s, bits)
  }

  /** An over-subscribed length vector makes some codeword unreadable; the Kraft sum decides. */
  lemma DecodesIffKraft(ls: seq<nat>)
    requires Valid(ls)
    ensures DecodesEverySymbol(ls) <==> Kraft(ls) <= FULL
  {
    if Kraft(ls) <= FULL {
      forall s: nat, bits: seq<Bit> | Coded(ls, s)
        ensures ReadsBack(ls, s, bits)
      {
        if StartsWith(bits, 0, Codeword(ls, s)) {
          DecodeFinds(ls, s, bits, 0);
        }
      }
    } else {
      PrefixFreeIffKraft(ls);
      var s: nat, t: nat :| Coded(ls, s) && Coded(ls, t) && s != t && Codeword(ls, s) <= Codeword(ls, t);
      OverlapMisreads(ls, s, t);
    }
  }

  /** If one codeword starts another, the two cannot both be read back. */
  lemma OverlapMisreads(ls: seq<nat>, s: nat, t: nat)
    requires Valid(ls) && Coded(ls, s) && Coded(ls, t) && s != t && Codeword(ls, s) <= Codeword(ls, t)
    ensures !DecodesEverySymbol(ls)
  {
    var ws, wt := Codeword(ls, s), Codeword(ls, t);
    assert StartsWith(wt, 0, wt);
    assert StartsWith(wt, 0, ws);
    assert !(ReadsBack(ls, s, wt) && ReadsBack(ls, t, wt));
  }

  /** Three codes of one bit: one of them cannot be read back. */
  lemma ThreeOneBitCodes()
    ensures Valid([1, 1, 1]) && !DecodesEverySymbol([1, 1, 1])
  {
    hide DecodesEverySymbol;
    var ls := [1, 1, 1];
    assert Pow2(MAX_BITS - 1) == FULL / 2 by { Pow2Values(); }
    assert KraftUpTo(ls, 3) > FULL;
    DecodesIffKraft(ls);
  }
}
