/** Turning the bytes of a TIFF file into integers: the decoding that
    read_int8, read_int16 and read_int32 hand to struct.unpack. Values are
    read at a position of a byte sequence. Unprefixed formats use the host's
    order, taken here to be little-endian. */
module Bytes {
  import opened Outcomes

  type Byte = b: int | 0 <= b < 256

  /** The byte order the 4-byte signature selects. */
  datatype ByteOrder = LittleEndian | BigEndian

  /** Size in bytes of one value: 'B', 'H' or 'i'. */
  type Width = w: int | w == 1 || w == 2 || w == 4 witness 1

  const TWO_16: int := 0x1_0000
  const TWO_31: int := 0x8000_0000
  const TWO_32: int := 0x1_0000_0000

  /** Four bytes, most significant first, as an unsigned integer. */
  function Join(hi: Byte, b2: Byte, b1: Byte, lo: Byte): int {
    ((hi as int * 256 + b2) * 256 + b1) * 256 + lo
  }

  /** Format 'H' / '>H' at position at: an unsigned 16-bit integer. */
  function U16At(s: seq<Byte>, at: nat, order: ByteOrder): (v: int)
    requires at + 2 <= |s|
    ensures 0 <= v < TWO_16
  {
    if order == BigEndian then s[at] as int * 256 + s[at + 1] else s[at + 1] as int * 256 + s[at]
  }

  /** The four bytes at position at as an unsigned 32-bit integer. */
  function U32At(s: seq<Byte>, at: nat, order: ByteOrder): (u: int)
    requires at + 4 <= |s|
    ensures 0 <= u < TWO_32
  {
    if order == BigEndian then Join(s[at], s[at + 1], s[at + 2], s[at + 3])
    else Join(s[at + 3], s[at + 2], s[at + 1], s[at])
  }

  /** Format 'i' / '>i' at position at: a signed 32-bit integer in two's complement. */
  function I32At(s: seq<Byte>, at: nat, order: ByteOrder): (v: int)
    requires at + 4 <= |s|
    ensures -TWO_31 <= v < TWO_31
  {
    var u := U32At(s, at, order);
    if u < TWO_31 then u else u - TWO_32
  }

  /** One value of width w ('B', 'H' or 'i') at position at. */
  function DecodeAt(order: ByteOrder, w: Width, s: seq<Byte>, at: nat): int
    requires at + w <= |s|
  {
    if w == 1 then s[at] else if w == 2 then U16At(s, at, order) else I32At(s, at, order)
  }

  /** The bytes of an unsigned 16-bit value in the given order. */
  function EncodeU16(v: int, order: ByteOrder): (b: seq<Byte>)
    requires 0 <= v < TWO_16
    ensures |b| == 2
  {
    if order == BigEndian then [v / 256, v % 256] else [v % 256, v / 256]
  }

  /** The bytes of an unsigned 32-bit value in the given order. */
  function EncodeU32(u: int, order: ByteOrder): (b: seq<Byte>)
    requires 0 <= u < TWO_32
    ensures |b| == 4
  {
    var q1 := u / 256;
    var q2 := q1 / 256;
    var le: seq<Byte> := [u % 256, q1 % 256, q2 % 256, q2 / 256];
    if order == BigEndian then [le[3], le[2], le[1], le[0]] else le
  }

  /** The two's complement bytes of a signed 32-bit value. */
  function EncodeI32(v: int, order: ByteOrder): (b: seq<Byte>)
    requires -TWO_31 <= v < TWO_31
    ensures |b| == 4
  {
    EncodeU32(if v < 0 then v + TWO_32 else v, order)
  }

  /** Decoding the encoding of a 16-bit value gives it back, in either order. */
  lemma U16RoundTrip(v: int, order: ByteOrder)
    requires 0 <= v < TWO_16
    ensures U16At(EncodeU16(v, order), 0, order) == v
  {
  }

  /** Every two bytes are the encoding of the value they decode to. */
  lemma U16Bytes(s: seq<Byte>, at: nat, order: ByteOrder)
    requires at + 2 <= |s|
    ensures EncodeU16(U16At(s, at, order), order) == s[at .. at + 2]
  {
  }

  lemma U32RoundTrip(u: int, order: ByteOrder)
    requires 0 <= u < TWO_32
    ensures U32At(EncodeU32(u, order), 0, order) == u
  {
    var q1 := u / 256;
    var q2 := q1 / 256;
    assert u == q1 * 256 + u % 256;
    assert q1 == q2 * 256 + q1 % 256;
    assert q2 == (q2 / 256) * 256 + q2 % 256;
  }

  lemma U32Bytes(s: seq<Byte>, at: nat, order: ByteOrder)
    requires at + 4 <= |s|
    ensures EncodeU32(U32At(s, at, order), order) == s[at .. at + 4]
  {
    var big := order == BigEndian;
    var hi: int, mid2: int := if big then s[at] else s[at + 3], if big then s[at + 1] else s[at + 2];
    var mid1: int, lo: int := if big then s[at + 2] else s[at + 1], if big then s[at + 3] else s[at];
    var q2 := hi * 256 + mid2;
    var q1 := q2 * 256 + mid1;
    assert U32At(s, at, order) == q1 * 256 + lo;
    DivMod256(q1, lo);
    DivMod256(q2, mid1);
    DivMod256(hi, mid2);
  }

  lemma DivMod256(x: int, d: int)
    requires 0 <= x && 0 <= d < 256
    ensures (x * 256 + d) / 256 == x && (x * 256 + d) % 256 == d
  {
  }

  /** Decoding the encoding of a signed value gives it back: 'i' is two's complement. */
  lemma I32RoundTrip(v: int, order: ByteOrder)
    requires -TWO_31 <= v < TWO_31
    ensures I32At(EncodeI32(v, order), 0, order) == v
  {
    U32RoundTrip(if v < 0 then v + TWO_32 else v, order);
  }

  /** Every four bytes are the two's complement encoding of the value they decode to. */
  lemma I32Bytes(s: seq<Byte>, at: nat, order: ByteOrder)
    requires at + 4 <= |s|
    ensures EncodeI32(I32At(s, at, order), order) == s[at .. at + 4]
  {
    U32Bytes(s, at, order);
  }

  /** A 32-bit value is negative exactly when its most significant byte has the top bit set. */
  lemma I32Sign(s: seq<Byte>, at: nat, order: ByteOrder)
    requires at + 4 <= |s|
    ensures I32At(s, at, order) < 0 <==> s[if order == BigEndian then at else at + 3] >= 128
  {
  }

  /** A big-endian value is the little-endian value of the same bytes reversed. */
  lemma BigEndianSwapsBytes(s: seq<Byte>, at: nat, w: Width)
    requires at + w <= |s|
    ensures DecodeAt(BigEndian, w, s, at) == DecodeAt(LittleEndian, w, Reversed(s[at .. at + w]), 0)
  {
  }

  function Reversed(b: seq<Byte>): (r: seq<Byte>)
    ensures |r| == |b|
    ensures forall i :: 0 <= i < |b| ==> r[i] == b[|b| - 1 - i]
  {
    if b == [] then [] else Reversed(b[1..]) + [b[0]]
  }

  /** k values of width w starting at position at, each decoded in the
      session's byte order: what struct.unpack returns for k such values. */
  function Unpack(order: ByteOrder, w: Width, s: seq<Byte>, at: nat, k: nat): (vs: seq<int>)
    requires at + k * w <= |s|
    ensures |vs| == k
    decreases k
  {
    if k == 0 then []
    else
      MulWidth(k, w);
      [DecodeAt(order, w, s, at)] + Unpack(order, w, s, at + w, k - 1)
  }

  /** Products of a count and a width, as the solver needs them. */
  lemma MulWidth(k: int, w: Width)
    ensures k >= 0 ==> k * w >= 0
    ensures k >= 1 ==> k * w >= w
    ensures (k - 1) * w + w == k * w
  {
  }

  /** Value j of an unpacked buffer is the value at at + j*w. */
  lemma {:induction false} UnpackAt(order: ByteOrder, w: Width, s: seq<Byte>, at: nat, k: nat, j: nat)
    requires at + k * w <= |s| && j < k
    ensures at + j * w + w <= |s|
    ensures Unpack(order, w, s, at, k)[j] == DecodeAt(order, w, s, at + j * w)
    decreases k
  {
    MulWidth(k, w);
    MulWidth(j, w);
    assert Unpack(order, w, s, at, k) == [DecodeAt(order, w, s, at)] + Unpack(order, w, s, at + w, k - 1);
    if j > 0 {
      UnpackAt(order, w, s, at + w, k - 1, j - 1);
      assert at + w + (j - 1) * w == at + j * w;
    }
  }

  /** Values of width 1 are the bytes themselves, in either order. */
  lemma {:induction false} UnpackBytes(order: ByteOrder, s: seq<Byte>, at: nat, k: nat)
    requires at + k <= |s|
    ensures Unpack(order, 1, s, at, k) == s[at .. at + k]
    decreases k
  {
    if k > 0 {
      UnpackBytes(order, s, at + 1, k - 1);
      assert s[at .. at + k] == [s[at]] + s[at + 1 .. at + k];
    }
  }

  /** Values at position at of the slice s[lo..end] are the values at
      position lo + at of s. */
  lemma {:induction false} UnpackSlice(order: ByteOrder, w: Width, s: seq<Byte>, lo: nat, end: nat, at: nat, k: nat)
    requires lo <= end <= |s| && lo + at + k * w <= end
    ensures Unpack(order, w, s[lo .. end], at, k) == Unpack(order, w, s, lo + at, k)
    decreases k
  {
    MulWidth(k, w);
    if k > 0 {
      UnpackSlice(order, w, s, lo, end, at + w, k - 1);
      assert DecodeAt(order, w, s[lo .. end], at) == DecodeAt(order, w, s, lo + at);
    }
  }

  /** struct.unpack(('>X' if big-endian else 'X') * k, b) as tiff_reader.py
      builds the format: the '>' prefix is repeated k times, and struct
      accepts a byte-order character only at the start of a format. */
  function UnpackAsWritten(order: ByteOrder, w: Width, k: int, b: seq<Byte>): (r: Result<seq<int>>)
    ensures r.Ok? ==> |r.value| == (if k > 0 then k else 0)
    ensures order == BigEndian && k >= 2 ==> r == Raised(BadFormat)
    ensures !(order == BigEndian && k >= 2) ==>
      r == (var c := if k > 0 then k else 0; if |b| == c * w then Ok(Unpack(order, w, b, 0, c)) else Raised(ShortRead))
  {
    var count := if k > 0 then k else 0;
    if order == BigEndian && k >= 2 then Raised(BadFormat)
    else if |b| != count * w then Raised(ShortRead)
    else Ok(Unpack(order, w, b, 0, count))
  }

  /** The big-endian read of two 16-bit values fails with a format error
      although exactly the four bytes they need are there, while the
      intended unpacking yields the two values. */
  lemma BigEndianPairRejected()
    ensures UnpackAsWritten(BigEndian, 2, 2, [0, 1, 0, 2]) == Raised(BadFormat)
    ensures Unpack(BigEndian, 2, [0, 1, 0, 2], 0, 2) == [1, 2]
  {
  }
}
