/** Unsigned 32-bit integers in little-endian byte order, as the header codec
    reads and writes them with the `LittleEndian` byte order. */
module LittleEndian {
  import opened Io

  /** An unsigned 32-bit value (Rust `u32`). */
  type U32 = x: int | 0 <= x < 0x1_0000_0000

  /** The four bytes of `x`, least significant first. */
  function EncodeU32(x: U32): (r: seq<Byte>)
    ensures |r| == 4
  {
    [x % 0x100, x / 0x100 % 0x100, x / 0x1_0000 % 0x100, x / 0x100_0000]
  }

  /** The value of four bytes read least significant first. */
  function DecodeU32(b: seq<Byte>): (x: U32)
    requires |b| == 4
  {
    var b0, b1, b2, b3: int := b[0], b[1], b[2], b[3];
    b0 + 0x100 * b1 + 0x1_0000 * b2 + 0x100_0000 * b3
  }

  /** Dividing `r + d * q` by `d` leaves quotient `q` and remainder `r`. */
  lemma DivModUnique(r: int, q: int, d: int)
    requires 0 < d && 0 <= r < d
    ensures (r + d * q) / d == q && (r + d * q) % d == r
  {
    var n := r + d * q;
    var k := n / d - q;
    assert d * (n / d) + n % d == n;
    assert d * k == r - n % d by {
      assert d * (n / d) == d * k + d * q;
    }
  }

  /** Decoding the encoding of a value gives the value back. */
  lemma DecodeEncodeU32(x: U32)
    ensures DecodeU32(EncodeU32(x)) == x
  {
    var r0, q1 := x % 0x100, x / 0x100;
    var r1, q2 := q1 % 0x100, q1 / 0x100;
    var r2, q3 := q2 % 0x100, q2 / 0x100;
    assert x == r0 + 0x100 * r1 + 0x1_0000 * q2;
    DivModUnique(r0 + 0x100 * r1, q2, 0x1_0000);
    assert x == r0 + 0x100 * r1 + 0x1_0000 * r2 + 0x100_0000 * q3;
    DivModUnique(r0 + 0x100 * r1 + 0x1_0000 * r2, q3, 0x100_0000);
  }

  /** Encoding the value of four bytes gives the same four bytes back. */
  lemma EncodeDecodeU32(b: seq<Byte>)
    requires |b| == 4
    ensures EncodeU32(DecodeU32(b)) == b
  {
    var x := DecodeU32(b);
    var b0, b1, b2, b3: int := b[0], b[1], b[2], b[3];
    var q2 := b2 + 0x100 * b3;
    var q1 := b1 + 0x100 * q2;
    assert x == b0 + 0x100 * q1;
    DivModUnique(b0, q1, 0x100);
    DivModUnique(b1, q2, 0x100);
    DivModUnique(b2, b3, 0x100);
    DivModUnique(b0 + 0x100 * b1, q2, 0x1_0000);
    DivModUnique(b0 + 0x100 * b1 + 0x1_0000 * b2, b3, 0x100_0000);
  }

  /** `write_u32::<LittleEndian>`: encodes `x` and writes its four bytes to `target`. */
  method WriteU32(target: Writer, x: U32) returns (r: Outcome)
    modifies target
    ensures r.Pass? <==> 4 <= old(target.room)
    ensures r.Pass? ==> target.written == old(target.written) + EncodeU32(x)
    ensures r.Pass? ==> target.room == old(target.room) - 4
    ensures r.Fail? ==> r.error == WriteZero
  {
    r := target.WriteAll(EncodeU32(x));
  }
}
