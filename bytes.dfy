/**
  Bytes, errors and the big-endian 32-bit integer fields that every IDX
  header is made of. Node's `Buffer.readInt32BE`/`readUInt32BE`/`writeInt32BE`
  and `DataView.getInt32(_, false)` are modelled here once and shared by all
  the codecs.
 */
module Bytes {

  /** One octet of a Node `Buffer` or `Uint8Array`. */
  type byte = b: int | 0 <= b < 256

  const TWO_31: int := 0x8000_0000
  const TWO_32: int := 0x1_0000_0000

  /** The error kinds the scripts can raise. */
  datatype Error =
    | RangeError            // a read or write past the end of a buffer, or a value out of range
    | FormatError(magic: int) // a magic number other than the expected one
    | AssertionError        // a failed `assert.equal` / `tf.util.assert`
    | TypeError             // a property read on `undefined` / `null`
    | InvalidArgument       // an argument a library call rejects (`tf.oneHot` with a depth below 2)
    | LengthMismatch        // two label sets with a different number of distinct values

  datatype Result<T> = Success(value: T) | Failure(error: Error)

  /** A JavaScript number that may be NaN (`None`). */
  datatype Option<T> = None | Some(value: T)

  /**
    The integer Node's `write*` methods store for a number that may be NaN:
    their range check `value > max || value < min` lets NaN through, and the
    byte stores then turn it into 0.
   */
  function Stored(x: Option<int>): (v: int)
    ensures x.Some? ==> v == x.value
    ensures x.None? ==> v == 0
  {
    match x
    case None => 0
    case Some(v) => v
  }

  predicate IsInt32(v: int) {
    -TWO_31 <= v < TWO_31
  }

  /** `buffer.readUInt32BE(off)`: the four bytes at `off`, most significant first. */
  function Uint32BE(s: seq<byte>, off: nat): (v: nat)
    requires off + 4 <= |s|
    ensures v < TWO_32
  {
    (s[off] as int) * 0x100_0000 + (s[off + 1] as int) * 0x1_0000 + (s[off + 2] as int) * 0x100 + s[off + 3] as int
  }

  /** `buffer.readInt32BE(off)`: the same four bytes read as two's complement. */
  function Int32BE(s: seq<byte>, off: nat): (v: int)
    requires off + 4 <= |s|
    ensures IsInt32(v)
  {
    var u := Uint32BE(s, off);
    if u >= TWO_31 then u - TWO_32 else u
  }

  /** The four bytes of an unsigned 32-bit value, most significant first. */
  function WriteUint32BE(u: nat): (r: seq<byte>)
    requires u < TWO_32
    ensures |r| == 4
  {
    [u / 0x100_0000, (u / 0x1_0000) % 0x100, (u / 0x100) % 0x100, u % 0x100]
  }

  /** `buffer.writeInt32BE(v, off)` for a value Node accepts (it throws a RangeError otherwise). */
  function WriteInt32BE(v: int): (r: seq<byte>)
    requires IsInt32(v)
    ensures |r| == 4
  {
    WriteUint32BE(if v < 0 then v + TWO_32 else v)
  }

  lemma Uint32RoundTrip(u: nat)
    requires u < TWO_32
    ensures Uint32BE(WriteUint32BE(u), 0) == u
  {
    var w := WriteUint32BE(u);
    var q1 := u / 0x100;
    var q2 := q1 / 0x100;
    var q3 := q2 / 0x100;
    assert u == q1 * 0x100 + u % 0x100;
    assert q1 == q2 * 0x100 + q1 % 0x100;
    assert q2 == q3 * 0x100 + q2 % 0x100;
    assert q2 == u / 0x1_0000;
    assert q3 == u / 0x100_0000;
    assert w[0] == q3 && w[1] == q2 % 0x100 && w[2] == q1 % 0x100 && w[3] == u % 0x100;
  }

  /** Reading back what `writeInt32BE` wrote gives the value that was written. */
  lemma Int32RoundTrip(v: int)
    requires IsInt32(v)
    ensures Int32BE(WriteInt32BE(v), 0) == v
  {
    Uint32RoundTrip(if v < 0 then v + TWO_32 else v);
  }

  /** A header field read anywhere in a buffer depends only on its own four bytes. */
  lemma Int32FieldAt(s: seq<byte>, off: nat, v: int)
    requires IsInt32(v)
    requires off + 4 <= |s| && s[off..off + 4] == WriteInt32BE(v)
    ensures Int32BE(s, off) == v
  {
    var w := WriteInt32BE(v);
    assert s[off] == w[0] && s[off + 1] == w[1] && s[off + 2] == w[2] && s[off + 3] == w[3];
    Int32RoundTrip(v);
  }

  /** Reading four bytes and writing the value back gives the same four bytes. */
  lemma Uint32BytesRoundTrip(s: seq<byte>, off: nat)
    requires off + 4 <= |s|
    ensures WriteUint32BE(Uint32BE(s, off)) == s[off..off + 4]
  {
    var u := Uint32BE(s, off);
    var b0, b1, b2, b3 := s[off] as int, s[off + 1] as int, s[off + 2] as int, s[off + 3] as int;
    assert u == ((b0 * 0x100 + b1) * 0x100 + b2) * 0x100 + b3;
    DivUnique(u, 0x100, (b0 * 0x100 + b1) * 0x100 + b2, b3);
    DivUnique((b0 * 0x100 + b1) * 0x100 + b2, 0x100, b0 * 0x100 + b1, b2);
    DivUnique(b0 * 0x100 + b1, 0x100, b0, b1);
    assert u / 0x1_0000 == (u / 0x100) / 0x100;
    assert u / 0x100_0000 == ((u / 0x100) / 0x100) / 0x100;
  }

  /** `writeInt32BE(readInt32BE(off))` reproduces the four bytes at `off`. */
  lemma Int32BytesRoundTrip(s: seq<byte>, off: nat)
    requires off + 4 <= |s|
    ensures WriteInt32BE(Int32BE(s, off)) == s[off..off + 4]
  {
    Uint32BytesRoundTrip(s, off);
  }

  /** Two fields that read the same value are the same four bytes. */
  lemma Int32FieldDetermined(a: seq<byte>, b: seq<byte>, off: nat)
    requires off + 4 <= |a| && off + 4 <= |b| && Int32BE(a, off) == Int32BE(b, off)
    ensures a[off..off + 4] == b[off..off + 4]
  {
    Int32BytesRoundTrip(a, off);
    Int32BytesRoundTrip(b, off);
  }

  lemma DivUnique(n: int, d: int, q: int, r: int)
    requires d > 0 && n == q * d + r && 0 <= r < d
    ensures n / d == q && n % d == r
  {
    var q' := n / d;
    if q' < q {
      MulLe(q' + 1, q, d);
    } else if q' > q {
      MulLe(q + 1, q', d);
    }
  }

  lemma MulLe(a: int, b: int, d: nat)
    requires a <= b
    ensures a * d <= b * d
  {
  }

  /** `Buffer.from(str, "ascii")`: each character keeps its low byte. */
  function AsciiEncode(s: string): (r: seq<byte>)
    ensures |r| == |s|
  {
    seq(|s|, i requires 0 <= i < |s| => (s[i] as int) % 256)
  }

  /** `buffer.toString("ascii")`: each byte with its high bit cleared. */
  function AsciiDecode(s: seq<byte>): (r: string)
    ensures |r| == |s|
  {
    seq(|s|, i requires 0 <= i < |s| => (s[i] % 128) as char)
  }

  predicate IsAscii(s: string) {
    forall i :: 0 <= i < |s| ==> s[i] as int < 128
  }

  lemma AsciiRoundTrip(s: string)
    requires IsAscii(s)
    ensures AsciiDecode(AsciiEncode(s)) == s
  {
    var r := AsciiDecode(AsciiEncode(s));
    forall i | 0 <= i < |s| ensures r[i] == s[i] {
      assert AsciiEncode(s)[i] == s[i] as int;
    }
  }

  /** `pat` occurs in `s` at position `j`. */
  predicate MatchAt(s: seq<byte>, pat: seq<byte>, j: int) {
    0 <= j && j + |pat| <= |s| && s[j..j + |pat|] == pat
  }

  /** `buffer.indexOf(pattern)` searching from `from`: the first match, or -1. */
  function IndexFrom(s: seq<byte>, pat: seq<byte>, from: nat): (i: int)
    requires |pat| > 0
    ensures i == -1 || (from <= i && MatchAt(s, pat, i))
    ensures i != -1 ==> forall j :: from <= j < i ==> !MatchAt(s, pat, j)
    ensures i == -1 ==> forall j :: from <= j ==> !MatchAt(s, pat, j)
    decreases |s| - from
  {
    if from + |pat| > |s| then -1
    else if s[from..from + |pat|] == pat then from
    else IndexFrom(s, pat, from + 1)
  }

  /** `buffer.indexOf(pattern)`: the leftmost match, or -1 when there is none. */
  function IndexOf(s: seq<byte>, pat: seq<byte>): (i: int)
    requires |pat| > 0
    ensures i == -1 || MatchAt(s, pat, i)
    ensures i != -1 ==> forall j :: 0 <= j < i ==> !MatchAt(s, pat, j)
    ensures i == -1 <==> forall j :: 0 <= j ==> !MatchAt(s, pat, j)
  {
    IndexFrom(s, pat, 0)
  }
}
