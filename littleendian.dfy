/**
 * `ByteBuffer` with `ByteOrder.LITTLE_ENDIAN`: `getInt` reads four bytes,
 * least significant first, as a two's-complement `int`.  The ITM and CRE
 * readers copy four-byte fields of the file into such a buffer and read
 * them back with `getInt`.
 */
module LittleEndian {
  import opened JavaLang

  newtype byte = x: int | 0 <= x < 256

  /** The unsigned value of four bytes, least significant first. */
  function Unsigned32(b0: byte, b1: byte, b2: byte, b3: byte): (u: int)
    ensures 0 <= u < 0x1_0000_0000
  {
    b0 as int + 0x100 * (b1 as int) + 0x1_0000 * (b2 as int) + 0x100_0000 * (b3 as int)
  }

  /** An unsigned 32-bit value as a Java `int` (two's complement). */
  function ToInt32(u: int): (v: int)
    requires 0 <= u < 0x1_0000_0000
    ensures IsInt32(v) && (v == u || v == u - 0x1_0000_0000)
  {
    if u < 0x8000_0000 then u else u - 0x1_0000_0000
  }

  /** `getInt(off)` on a little-endian buffer `b`. */
  function GetInt(b: seq<byte>, off: nat): (v: int)
    requires off + 4 <= |b|
    ensures IsInt32(v)
  {
    ToInt32(Unsigned32(b[off], b[off + 1], b[off + 2], b[off + 3]))
  }

  /** The four bytes a little-endian `putInt(v)` writes: the inverse of `GetInt`. */
  function PutInt(v: int): (b: seq<byte>)
    requires IsInt32(v)
    ensures |b| == 4
  {
    var u := if v < 0 then v + 0x1_0000_0000 else v;
    [(u % 0x100) as byte, (u / 0x100 % 0x100) as byte, (u / 0x1_0000 % 0x100) as byte, (u / 0x100_0000) as byte]
  }

  /** Reading back what was written gives the same `int`. */
  lemma GetPutInt(v: int)
    requires IsInt32(v)
    ensures GetInt(PutInt(v), 0) == v
  {
    var u := if v < 0 then v + 0x1_0000_0000 else v;
    var b := PutInt(v);
    UnsignedDigits(u);
    assert Unsigned32(b[0], b[1], b[2], b[3]) == u;
  }

  /** Writing back what was read gives the same four bytes. */
  lemma PutGetInt(b: seq<byte>, off: nat)
    requires off + 4 <= |b|
    ensures PutInt(GetInt(b, off)) == b[off..off + 4]
  {
    var u := Unsigned32(b[off], b[off + 1], b[off + 2], b[off + 3]);
    var v := GetInt(b, off);
    assert (if v < 0 then v + 0x1_0000_0000 else v) == u;
    DigitsOfUnsigned(b[off], b[off + 1], b[off + 2], b[off + 3]);
  }

  /** A 32-bit value is its four base-256 digits. */
  lemma UnsignedDigits(u: int)
    requires 0 <= u < 0x1_0000_0000
    ensures u == u % 0x100 + 0x100 * (u / 0x100 % 0x100) + 0x1_0000 * (u / 0x1_0000 % 0x100) + 0x100_0000 * (u / 0x100_0000)
    ensures u / 0x100_0000 < 0x100
  {
    var q1 := u / 0x100;
    var q2 := q1 / 0x100;
    var q3 := q2 / 0x100;
    assert u == u % 0x100 + 0x100 * q1;
    assert q1 == q1 % 0x100 + 0x100 * q2;
    assert q2 == q2 % 0x100 + 0x100 * q3;
    assert q2 == u / 0x1_0000;
    assert q3 == u / 0x100_0000;
  }

  /** The base-256 digits of four bytes are those bytes. */
  lemma DigitsOfUnsigned(b0: byte, b1: byte, b2: byte, b3: byte)
    ensures var u := Unsigned32(b0, b1, b2, b3);
      u % 0x100 == b0 as int && u / 0x100 % 0x100 == b1 as int &&
      u / 0x1_0000 % 0x100 == b2 as int && u / 0x100_0000 == b3 as int
  {
    var u := Unsigned32(b0, b1, b2, b3);
    var r1 := b1 as int + 0x100 * (b2 as int) + 0x1_0000 * (b3 as int);
    var r2 := b2 as int + 0x100 * (b3 as int);
    assert u == b0 as int + 0x100 * r1;
    assert u / 0x100 == r1;
    assert r1 == b1 as int + 0x100 * r2;
    assert r1 / 0x100 == r2;
    assert u / 0x1_0000 == r2 by {
      assert u / 0x1_0000 == u / 0x100 / 0x100;
    }
    assert r2 / 0x100 == b3 as int;
    assert u / 0x100_0000 == b3 as int by {
      assert u / 0x100_0000 == u / 0x1_0000 / 0x100;
    }
  }
}
