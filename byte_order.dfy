/**
 * Byte orders of `java.nio.ByteBuffer`: the archive is read and patched
 * little-endian, the image chunk framing is written big-endian.
 */
module ByteOrder {
  import opened JavaInt

  /** An octet, as the unsigned value 0..255 of a Java `byte`. */
  type byte = x: int | 0 <= x < 256

  /** The unsigned value of the four bytes s[i..i+4], least significant first. */
  function LeUint32(s: seq<byte>, i: nat): uint32
    requires i + 4 <= |s|
  {
    s[i] as int + 256 * (s[i + 1] as int + 256 * (s[i + 2] as int + 256 * (s[i + 3] as int)))
  }

  /** ByteBuffer.getInt(i) on a little-endian buffer. */
  function LeInt32(s: seq<byte>, i: nat): int32
    requires i + 4 <= |s|
  {
    Signed(LeUint32(s, i))
  }

  /** The four bytes ByteBuffer.putInt writes for `v` on a little-endian buffer. */
  function LeBytes(v: int32): (b: seq<byte>)
    ensures |b| == 4
  {
    var u := Unsigned(v);
    [(u % 256), (u / 256 % 256), (u / 256 / 256 % 256), (u / 256 / 256 / 256)]
  }

  /** The unsigned value of the four bytes s[i..i+4], most significant first. */
  function BeUint32(s: seq<byte>, i: nat): uint32
    requires i + 4 <= |s|
  {
    s[i + 3] as int + 256 * (s[i + 2] as int + 256 * (s[i + 1] as int + 256 * (s[i] as int)))
  }

  /** ByteBuffer.getInt(i) on a big-endian buffer; how an image reader reads chunk lengths and CRCs. */
  function BeInt32(s: seq<byte>, i: nat): int32
    requires i + 4 <= |s|
  {
    Signed(BeUint32(s, i))
  }

  /** The four bytes ByteBuffer.putInt writes for `v` on a big-endian buffer (writeBigEndian). */
  function BeBytes(v: int32): (b: seq<byte>)
    ensures |b| == 4
  {
    var u := Unsigned(v);
    [(u / 256 / 256 / 256), (u / 256 / 256 % 256), (u / 256 % 256), (u % 256)]
  }

  /** ByteBuffer.putInt(index, v) on a little-endian buffer holding `s`. */
  function PutInt(s: seq<byte>, index: nat, v: int32): (r: seq<byte>)
    requires index + 4 <= |s|
    ensures |r| == |s|
    ensures LeInt32(r, index) == v
    ensures forall j :: 0 <= j < |s| && !(index <= j < index + 4) ==> r[j] == s[j]
  {
    LeRoundTrip(v);
    s[..index] + LeBytes(v) + s[index + 4..]
  }

  /** The base-256 digits of an unsigned 32-bit value reassemble to it. */
  lemma Digits(u: uint32)
    ensures u == u % 256 + 256 * (u / 256 % 256 + 256 * (u / 256 / 256 % 256 + 256 * (u / 256 / 256 / 256)))
    ensures u / 256 / 256 / 256 < 256
  {
    var q0 := u / 256;
    var q1 := q0 / 256;
    var q2 := q1 / 256;
    assert u == u % 256 + 256 * q0;
    assert q0 == q0 % 256 + 256 * q1;
    assert q1 == q1 % 256 + 256 * q2;
  }

  /** Reading back what putInt wrote gives the value written (little-endian). */
  lemma LeRoundTrip(v: int32)
    ensures LeInt32(LeBytes(v), 0) == v
  {
    var u := Unsigned(v);
    Digits(u);
    assert LeUint32(LeBytes(v), 0) == u;
    SignedUnsigned(v, u);
  }

  /** Reading back what writeBigEndian wrote gives the value written (big-endian). */
  lemma BeRoundTrip(v: int32)
    ensures BeInt32(BeBytes(v), 0) == v
  {
    var u := Unsigned(v);
    Digits(u);
    assert BeUint32(BeBytes(v), 0) == u;
    SignedUnsigned(v, u);
  }

  /** Writing back the value read from four bytes reproduces those bytes (little-endian). */
  lemma LeBytesOfRead(s: seq<byte>, i: nat)
    requires i + 4 <= |s|
    ensures LeBytes(LeInt32(s, i)) == s[i..i + 4]
  {
    var u := LeUint32(s, i);
    SignedUnsigned(0, u);
    var b := LeBytes(LeInt32(s, i));
    var x3 := s[i + 3] as int;
    var x2 := s[i + 2] as int + 256 * x3;
    var x1 := s[i + 1] as int + 256 * x2;
    assert u == s[i] as int + 256 * x1;
    assert u % 256 == s[i] as int && u / 256 == x1;
    assert x1 % 256 == s[i + 1] as int && x1 / 256 == x2;
    assert x2 % 256 == s[i + 2] as int && x2 / 256 == x3;
    assert b[0] == s[i] && b[1] == s[i + 1] && b[2] == s[i + 2] && b[3] == s[i + 3];
  }

  /** The big-endian spelling of a value is its little-endian spelling reversed. */
  lemma BeIsReversedLe(v: int32)
    ensures BeBytes(v) == [LeBytes(v)[3], LeBytes(v)[2], LeBytes(v)[1], LeBytes(v)[0]]
  {
  }

  /** Distinct values have distinct big-endian spellings. */
  lemma BeBytesInjective(v: int32, w: int32)
    requires BeBytes(v) == BeBytes(w)
    ensures v == w
  {
    BeRoundTrip(v);
    BeRoundTrip(w);
  }

  /** getInt (little-endian) depends only on the four bytes it reads. */
  lemma LeInt32Equal(s: seq<byte>, i: nat, t: seq<byte>, j: nat)
    requires i + 4 <= |s| && j + 4 <= |t| && s[i..i + 4] == t[j..j + 4]
    ensures LeInt32(s, i) == LeInt32(t, j)
  {
    assert s[i] == s[i..i + 4][0] == t[j];
    assert s[i + 1] == s[i..i + 4][1] == t[j + 1];
    assert s[i + 2] == s[i..i + 4][2] == t[j + 2];
    assert s[i + 3] == s[i..i + 4][3] == t[j + 3];
  }

  /** getInt (big-endian) depends only on the four bytes it reads. */
  lemma BeInt32Equal(s: seq<byte>, i: nat, t: seq<byte>, j: nat)
    requires i + 4 <= |s| && j + 4 <= |t| && s[i..i + 4] == t[j..j + 4]
    ensures BeInt32(s, i) == BeInt32(t, j)
  {
    assert s[i] == s[i..i + 4][0] == t[j];
    assert s[i + 1] == s[i..i + 4][1] == t[j + 1];
    assert s[i + 2] == s[i..i + 4][2] == t[j + 2];
    assert s[i + 3] == s[i..i + 4][3] == t[j + 3];
  }
}
