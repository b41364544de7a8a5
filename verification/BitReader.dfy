/** The bit cursor over a byte buffer. */
module BitReader {
  import opened Bits

  /** Largest number of bits one read may ask for. */
  const MAX_READ: nat := 24
  /** Buffers stay below 2^29 bytes, so that a bit position fits 32 bits. */
  const MAX_SIZE: nat := 0x2000_0000

  class Reader {
    const data: seq<Byte>
    var bit: nat

    constructor (data: seq<Byte>, bit: nat)
      requires |data| < MAX_SIZE
      ensures this.data == data && this.bit == bit && Valid()
    {
      this.data := data;
      this.bit := bit;
    }

    predicate Valid() {
      |data| < MAX_SIZE
    }

    /** Reads `count` bits, least significant first; fails without moving when they are not all there. */
    method Read(count: nat) returns (ok: bool, value: nat)
      requires Valid()
      modifies this
      ensures ok <==> count <= MAX_READ && old(bit) + count <= 8 * |data|
      ensures ok ==> bit == old(bit) + count && value == LsbValue(Stream(data)[old(bit)..bit])
      ensures !ok ==> bit == old(bit)
    {
      hide Stream, LsbValue, BitOf;
      value := 0;
      if count > MAX_READ || bit > |data| * 8 || count > |data| * 8 - bit {
        return false, 0;
      }
      ghost var start, bits := bit, Stream(data);
      for i := 0 to count
        invariant bit == start + i <= |bits|
        invariant value == LsbValue(bits[start..bit])
      {
        StreamAt(data, bit);
        LsbNext(bits, start, bit, bit + 1);
        if BitOf(data[bit / 8], bit % 8) == 1 {
          value := value + Pow2(i);
        }
        bit := bit + 1;
      }
      ok := true;
    }
  }
}
