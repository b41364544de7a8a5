/** The internet checksum, and the packets that carry it.

    The reference is the plain sum of the 16-bit words, reduced the way one's complement
    addition reduces it: to the residue modulo 65535, where only an all-zero sum gives 0. */
module Checksum {
  import opened Bits

  const ONES: int := 0xFFFF

  /** Sum of the big-endian words; an odd last byte counts as the high half of a word. */
  function Total(data: seq<Byte>): nat {
    if |data| == 0 then 0
    else if |data| == 1 then 256 * data[0] as int
    else 256 * data[0] as int + data[1] + Total(data[2..])
  }

  /** One's complement value of a plain sum. */
  function Fold(t: nat): (r: nat)
    ensures r <= ONES && (r == 0 <==> t == 0)
  {
    if t == 0 then 0 else 1 + (t - 1) % ONES
  }

  function ChecksumOf(data: seq<Byte>): (r: nat)
    ensures r <= ONES
  {
    ONES - Fold(Total(data))
  }

  lemma FoldShift(t: nat)
    requires t > 0
    ensures Fold(t + ONES) == Fold(t)
  {
  }

  lemma FoldSmall(t: nat)
    requires t <= ONES
    ensures Fold(t) == t
  {
  }

  /** Adding with the carry brought round does not change the reduced sum. */
  lemma CarryRound(s: nat, rest: nat)
    requires s <= 2 * ONES
    ensures var r := if s > ONES then s % 0x1_0000 + s / 0x1_0000 else s;
            r <= ONES && Fold(r + rest) == Fold(s + rest)
  {
    if s > ONES {
      assert s / 0x1_0000 == 1 && s % 0x1_0000 == s - 0x1_0000;
      FoldShift(s - ONES + rest);
    }
  }

  lemma TotalFrom(data: seq<Byte>, i: nat)
    requires i <= |data|
    ensures Total(data[i..])
         == if i == |data| then 0
            else if i + 1 == |data| then 256 * data[i] as int
            else 256 * data[i] as int + data[i + 1] + Total(data[i + 2..])
  {
    if i + 2 <= |data| {
      assert data[i..][2..] == data[i + 2..];
    }
  }

  method ComputeChecksum(data: seq<Byte>) returns (r: nat)
    ensures r == ChecksumOf(data)
  {
    hide Fold, Total;
    var sum: nat := 0;
    var i: nat := 0;
    assert data[0..] == data;
    while i + 1 < |data|
      invariant i <= |data| && i % 2 == 0 && sum <= ONES
      invariant Fold(Total(data)) == Fold(sum + Total(data[i..]))
    {
      TotalFrom(data, i);
      sum := sum + (256 * data[i] as int + data[i + 1]);
      CarryRound(sum, Total(data[i + 2..]));
      if sum > 0xFFFF {
        sum := sum % 0x1_0000 + sum / 0x1_0000;
      }
      i := i + 2;
    }
    TotalFrom(data, i);
    if |data| % 2 == 1 {
      sum := sum + 256 * data[|data| - 1] as int;
      CarryRound(sum, 0);
      if sum > 0xFFFF {
        sum := sum % 0x1_0000 + sum / 0x1_0000;
      }
    }
    sum := FoldCarries(sum);
    FoldSmall(sum);
    r := ONES - sum;
  }

  /** Brings carries round until the sum fits 16 bits. */
  method FoldCarries(sum: nat) returns (r: nat)
    requires sum <= 2 * ONES
    ensures r <= ONES && Fold(r) == Fold(sum)
  {
    hide Fold;
    r := sum;
    while r / 0x1_0000 != 0
      invariant r <= 2 * ONES && Fold(r) == Fold(sum)
      decreases r
    {
      CarryRound(r, 0);
      r := r % 0x1_0000 + r / 0x1_0000;
    }
  }

  /** A buffer checks out exactly when its words sum to a positive multiple of 65535. */
  lemma ChecksOutIff(data: seq<Byte>)
    ensures ChecksumOf(data) == 0 <==> Total(data) > 0 && Total(data) % ONES == 0
  {
    hide Total;
    var t := Total(data);
    if t > 0 {
      var q, r := (t - 1) / ONES, (t - 1) % ONES;
      assert t == ONES * q + (r + 1);
      if r + 1 == ONES {
        DivUnique(t, ONES, q + 1, 0);
      } else {
        DivUnique(t, ONES, q, r + 1);
      }
    }
  }

  // ---- Storing a word ----

  function PutWord(data: seq<Byte>, k: nat, w: nat): (r: seq<Byte>)
    requires k + 2 <= |data| && w <= ONES
    ensures |r| == |data|
  {
    data[k := w / 256][k + 1 := w % 256]
  }

  function WordAt(data: seq<Byte>, k: nat): nat
    requires k + 2 <= |data|
  {
    256 * data[k] as int + data[k + 1]
  }

  lemma {:induction false} PutWordTotal(data: seq<Byte>, k: nat, w: nat)
    requires k % 2 == 0 && k + 2 <= |data| && w <= ONES
    ensures Total(PutWord(data, k, w)) == Total(data) - WordAt(data, k) + w
  {
    var r := PutWord(data, k, w);
    if k == 0 {
      assert r[2..] == data[2..];
    } else {
      PutWordTotal(data[2..], k - 2, w);
      assert r[2..] == PutWord(data[2..], k - 2, w);
      assert WordAt(data[2..], k - 2) == WordAt(data, k);
    }
  }

  /** Fills in the checksum field at k, which is cleared first. */
  function Sealed(data: seq<Byte>, k: nat): (r: seq<Byte>)
    requires k + 2 <= |data|
    ensures |r| == |data|
  {
    var cleared := PutWord(data, k, 0);
    PutWord(cleared, k, ChecksumOf(cleared))
  }

  /** Whatever the buffer and its length, a sealed buffer passes the receiver's check. */
  lemma SealedChecksOut(data: seq<Byte>, k: nat)
    requires k % 2 == 0 && k + 2 <= |data|
    ensures ChecksumOf(Sealed(data, k)) == 0
  {
    hide Total, Fold;
    var cleared := PutWord(data, k, 0);
    var c := ChecksumOf(cleared);
    PutWordTotal(cleared, k, c);
    assert WordAt(cleared, k) == 0;
    FoldComplement(Total(cleared));
  }

  lemma FoldComplement(t: nat)
    ensures Fold(t + (ONES - Fold(t))) == ONES
  {
    if t > 0 {
      var q, r := (t - 1) / ONES, (t - 1) % ONES;
      var u := t + (ONES - Fold(t));
      assert t - 1 == ONES * q + r;
      assert u - 1 == ONES * q + (ONES - 1);
      DivUnique(u - 1, ONES, q, ONES - 1);
    }
  }

  /** Changing one word of a buffer that checks out goes unnoticed only between the two zeros. */
  lemma OneWordErrorNoticed(data: seq<Byte>, k: nat, w: nat)
    requires k % 2 == 0 && k + 2 <= |data| && w <= ONES && w != WordAt(data, k) && ChecksumOf(data) == 0
    ensures ChecksumOf(PutWord(data, k, w)) == 0 <==>
            (WordAt(data, k) % ONES == 0 && w % ONES == 0 && Total(PutWord(data, k, w)) > 0)
  {
    hide Total, Fold, ChecksumOf;
    var v, t := WordAt(data, k), Total(data);
    PutWordTotal(data, k, w);
    ChecksOutIff(data);
    ChecksOutIff(PutWord(data, k, w));
    MultipleShifted(t, v, w);
  }

  /** Exchanging v for w keeps a multiple one exactly when both are multiples themselves. */
  lemma MultipleShifted(t: int, v: nat, w: nat)
    requires t % ONES == 0 && v <= ONES && w <= ONES && v != w
    ensures (t - v + w) % ONES == 0 <==> v % ONES == 0 && w % ONES == 0
  {
    var u, q := t - v + w, t / ONES;
    assert t == ONES * q;
    if u % ONES == 0 {
      var p := u / ONES;
      Distribute(ONES, p, q);
      assert ONES * (p - q) == w - v;
      MultipleWithin(p - q, w - v);
    } else if v % ONES == 0 && w % ONES == 0 {
      DivUnique(u, ONES, q + (if w == ONES then 1 else 0) - (if v == ONES then 1 else 0), 0);
    }
  }

  lemma MultipleWithin(k: int, d: int)
    requires d == ONES * k && -ONES <= d <= ONES && d != 0
    ensures d == ONES || d == -ONES
  {
  }
}
