/** Fixed-width integer ranges and the little-endian byte images the
    serialisers write (`write_u8/u16/u32/i32` in core/src/deterministic_sim.cpp,
    and the packed `memcpy` images in core/src/net/packets.h on a
    little-endian host). */
module ByteOrder {

  type byte = x: int | 0 <= x < 0x100
  type i8 = x: int | -0x80 <= x < 0x80
  type u16 = x: int | 0 <= x < 0x1_0000
  type u32 = x: int | 0 <= x < 0x1_0000_0000
  type i32 = x: int | -0x8000_0000 <= x < 0x8000_0000

  const I32_MIN: int := -0x8000_0000
  const I32_MAX: int := 0x7FFF_FFFF

  function Abs(x: int): (r: nat)
    ensures r == x || r == -x
  {
    if x < 0 then -x else x
  }

  function Max(a: int, b: int): (r: int)
    ensures r >= a && r >= b && (r == a || r == b)
  {
    if a < b then b else a
  }

  function Min(a: int, b: int): (r: int)
    ensures r <= a && r <= b && (r == a || r == b)
  {
    if a < b then a else b
  }

  /** Value of a little-endian byte sequence of length 2. */
  function U16Value(b: seq<byte>): (v: u16)
    requires |b| == 2
  {
    b[0] as int + 0x100 * b[1] as int
  }

  /** Value of a little-endian byte sequence of length 4. */
  function U32Value(b: seq<byte>): (v: u32)
    requires |b| == 4
  {
    b[0] as int + 0x100 * b[1] as int + 0x1_0000 * b[2] as int + 0x100_0000 * b[3] as int
  }

  /** `write_u16`: low byte first, then `(v >> 8) & 0xFF`. */
  function U16Bytes(v: u16): (r: seq<byte>)
    ensures |r| == 2
  {
    [v % 0x100, (v / 0x100) % 0x100]
  }

  lemma U16RoundTrip(v: u16)
    ensures U16Value(U16Bytes(v)) == v
  {
  }

  /** `write_u32`: the four bytes `(v >> 8k) & 0xFF` for k = 0..3. */
  function U32Bytes(v: u32): (r: seq<byte>)
    ensures |r| == 4
  {
    [v % 0x100, (v / 0x100) % 0x100, (v / 0x1_0000) % 0x100, (v / 0x100_0000) % 0x100]
  }

  /** Reading back a written `u32` gives the value written. */
  lemma U32RoundTrip(v: u32)
    ensures U32Value(U32Bytes(v)) == v
  {
    var q1 := v / 0x100;
    var q2 := q1 / 0x100;
    var q3 := q2 / 0x100;
    assert v == v % 0x100 + 0x100 * q1 && q1 == q1 % 0x100 + 0x100 * q2 && q2 == q2 % 0x100 + 0x100 * q3;
    assert q2 == v / 0x1_0000 && q3 == v / 0x100_0000;
  }

  /** `static_cast<uint32_t>` of a signed 32-bit value: two's complement. */
  function Unsigned32(v: i32): (u: u32)
    ensures Signed32(u) == v
    ensures v >= 0 <==> u < 0x8000_0000
  {
    if v < 0 then v + 0x1_0000_0000 else v
  }

  /** The inverse reading of a 32-bit pattern as a signed value. */
  function Signed32(u: u32): (v: i32)
  {
    if u >= 0x8000_0000 then u - 0x1_0000_0000 else u
  }

  /** `write_i32`: the two's-complement pattern written as a `u32`. */
  function I32Bytes(v: i32): (r: seq<byte>)
    ensures |r| == 4
  {
    U32Bytes(Unsigned32(v))
  }

  /** Reading back a written `i32` gives the value written. */
  lemma I32RoundTrip(v: i32)
    ensures I32Value(I32Bytes(v)) == v
  {
    U32RoundTrip(Unsigned32(v));
  }

  function I32Value(b: seq<byte>): (v: i32)
    requires |b| == 4
  {
    Signed32(U32Value(b))
  }

  /** `++` on a `uint32_t`: wraps from 2^32 - 1 to 0. */
  function Inc32(c: u32): u32
  {
    if c == 0xFFFF_FFFF then 0 else c + 1
  }

  /** A `uint32_t` counter after n increments from zero. */
  function Count32(n: nat): u32
  {
    if n == 0 then 0 else Inc32(Count32(n - 1))
  }

  /** The counter holds the number of increments modulo 2^32. */
  lemma {:induction false} Count32IsMod(n: nat)
    ensures Count32(n) == n % 0x1_0000_0000
  {
    if n > 0 {
      Count32IsMod(n - 1);
      WrapSucc(n - 1);
    }
  }

  /** One wrapping increment of a residue modulo 2^32. */
  lemma WrapSucc(n: nat)
    ensures Inc32(n % 0x1_0000_0000) == (n + 1) % 0x1_0000_0000
  {
    var q := n / 0x1_0000_0000;
    assert n == q * 0x1_0000_0000 + n % 0x1_0000_0000;
  }

  /** The value of one bit of a mask: its weight when set. */
  function Bit(isSet: bool, weight: nat): nat
  {
    if isSet then weight else 0
  }

  /** One step of reading bits low first: the low bit and the rest. */
  lemma Halve(low: nat, high: nat)
    requires low < 2
    ensures (low + 2 * high) % 2 == low && (low + 2 * high) / 2 == high
  {
  }

  /** An optional field of a change-masked record: its bytes when its bit
      is set, nothing otherwise. */
  function Field(present: bool, b: seq<byte>): seq<byte>
  {
    if present then b else []
  }

  lemma AppendNil(a: seq<byte>)
    ensures a + [] == a
  {
  }

  lemma AppendAssoc(a: seq<byte>, b: seq<byte>, c: seq<byte>)
    ensures (a + b) + c == a + (b + c)
  {
  }
}
