/**
 * Byte-level encodings used on the wire: Java's big-endian `int` and
 * `unsigned short` as written by `DataOutputStream`, and the "modified
 * UTF-8" that `DataOutputStream.writeUTF` produces for a string.
 *
 * Java bytes are signed; every place the node interprets a byte it masks
 * it with `& 0xff`, so bytes are modelled here as their unsigned value.
 */
module Bytes {
  import opened Wrappers

  newtype byte = x: int | 0 <= x < 256

  const INT32_MIN: int := -0x8000_0000
  const INT32_MAX: int := 0x7FFF_FFFF
  const INT64_MIN: int := -0x8000_0000_0000_0000
  const INT64_MAX: int := 0x7FFF_FFFF_FFFF_FFFF

  predicate IsInt32(x: int) { INT32_MIN <= x <= INT32_MAX }

  predicate IsInt64(x: int) { INT64_MIN <= x <= INT64_MAX }

  /** `n` zero bytes (a freshly allocated Java byte array). */
  function Zeros(n: nat): (r: seq<byte>)
    ensures |r| == n
    ensures forall i :: 0 <= i < n ==> r[i] == 0
  {
    seq(n, _ => 0 as byte)
  }

  /** `DataOutputStream.writeInt`: four bytes, two's complement, big-endian. */
  function Int32Bytes(x: int): (r: seq<byte>)
    requires IsInt32(x)
    ensures |r| == 4
  {
    var u := if x < 0 then x + 0x1_0000_0000 else x;
    var b3 := u % 256;
    var u1 := u / 256;
    var b2 := u1 % 256;
    var u2 := u1 / 256;
    var b1 := u2 % 256;
    var b0 := u2 / 256;
    [b0 as byte, b1 as byte, b2 as byte, b3 as byte]
  }

  /** `DataInputStream.readInt` on the first four bytes of `b`. */
  function ReadInt32(b: seq<byte>): (x: int)
    requires |b| >= 4
    ensures IsInt32(x)
  {
    var u := ((b[0] as int * 256 + b[1] as int) * 256 + b[2] as int) * 256 + b[3] as int;
    if u <= INT32_MAX then u else u - 0x1_0000_0000
  }

  lemma ReadInt32OfInt32Bytes(x: int, rest: seq<byte>)
    requires IsInt32(x)
    ensures ReadInt32(Int32Bytes(x) + rest) == x
  {
    var u := if x < 0 then x + 0x1_0000_0000 else x;
    var u1 := u / 256;
    var u2 := u1 / 256;
    assert u == u1 * 256 + u % 256;
    assert u1 == u2 * 256 + u1 % 256;
    assert u2 == (u2 / 256) * 256 + u2 % 256;
    var b := Int32Bytes(x) + rest;
    assert ((b[0] as int * 256 + b[1] as int) * 256 + b[2] as int) * 256 + b[3] as int == u;
  }

  /** `DataOutputStream.writeShort` of an unsigned length, big-endian. */
  function UInt16Bytes(n: nat): (r: seq<byte>)
    requires n < 0x1_0000
    ensures |r| == 2
  {
    [(n / 256) as byte, (n % 256) as byte]
  }

  /** `DataInputStream.readUnsignedShort` on the first two bytes of `b`. */
  function ReadUInt16(b: seq<byte>): (n: nat)
    requires |b| >= 2
    ensures n < 0x1_0000
  {
    b[0] as int * 256 + b[1] as int
  }

  lemma ReadUInt16OfUInt16Bytes(n: nat, rest: seq<byte>)
    requires n < 0x1_0000
    ensures ReadUInt16(UInt16Bytes(n) + rest) == n
  {
  }

  /** The modified UTF-8 form of one UTF-16 code unit. */
  function CodeUnitBytes(u: nat): (r: seq<byte>)
    requires u < 0x1_0000
    ensures 1 <= |r| <= 3
    ensures |r| == 1 <==> 1 <= u <= 0x7F
  {
    if 1 <= u <= 0x7F then [u as byte]
    else if u <= 0x7FF then [(0xC0 + u / 64) as byte, (0x80 + u % 64) as byte]
    else [(0xE0 + u / 4096) as byte, (0x80 + (u / 64) % 64) as byte, (0x80 + u % 64) as byte]
  }

  /** One character: a supplementary character is two surrogate code units in Java. */
  function CharBytes(c: char): (r: seq<byte>)
    ensures 1 <= |r| <= 6
    ensures |r| == 1 <==> 1 <= c as int <= 0x7F
  {
    var v := c as int;
    if v < 0x1_0000 then CodeUnitBytes(v)
    else
      CodeUnitBytes(0xD800 + (v - 0x1_0000) / 0x400) + CodeUnitBytes(0xDC00 + (v - 0x1_0000) % 0x400)
  }

  /** The body `writeUTF` writes after its two-byte length prefix. */
  function ModifiedUtf8(s: string): (r: seq<byte>)
    ensures |r| >= |s|
  {
    if s == [] then [] else ModifiedUtf8(s[..|s| - 1]) + CharBytes(s[|s| - 1])
  }

  predicate IsAscii(s: string) { forall i :: 0 <= i < |s| ==> 1 <= s[i] as int <= 0x7F }

  /** An ASCII string is one byte per character. */
  lemma {:induction false} ModifiedUtf8OfAscii(s: string)
    requires IsAscii(s)
    ensures |ModifiedUtf8(s)| == |s|
    ensures forall i :: 0 <= i < |s| ==> ModifiedUtf8(s)[i] as int == s[i] as int
  {
    if s != [] {
      var p := s[..|s| - 1];
      assert IsAscii(p) by { forall i | 0 <= i < |p| ensures 1 <= p[i] as int <= 0x7F { assert p[i] == s[i]; } }
      ModifiedUtf8OfAscii(p);
    }
  }

  /** The UTF-16 code units of one character: a supplementary character is a surrogate pair. */
  function CharUnits(c: char): (r: seq<nat>)
    ensures 1 <= |r| <= 2 && forall k :: 0 <= k < |r| ==> r[k] < 0x1_0000
  {
    var v := c as int;
    if v < 0x1_0000 then [v] else [0xD800 + (v - 0x1_0000) / 0x400, 0xDC00 + (v - 0x1_0000) % 0x400]
  }

  /** The UTF-16 code units of a string, as a Java `String` holds them. */
  function Utf16(s: string): (r: seq<nat>)
    ensures |s| <= |r| <= 2 * |s|
  {
    if s == [] then [] else Utf16(s[..|s| - 1]) + CharUnits(s[|s| - 1])
  }

  /** A byte of the form `10xxxxxx`, the only form a second or third byte may take. */
  predicate IsContinuation(b: byte) { 0x80 <= b < 0xC0 }

  /**
   * The first code unit of `b` and the number of bytes it takes, as
   * `readUTF` decodes it: `0xxxxxxx` alone, `110xxxxx 10xxxxxx`, or
   * `1110xxxx 10xxxxxx 10xxxxxx`; overlong forms are accepted. A lead byte
   * of another form, a missing byte or a bad continuation byte is a
   * `UTFDataFormatException`, modelled as `None`.
   */
  function FirstUnit(b: seq<byte>): (r: Option<(nat, nat)>)
    requires b != []
    ensures r.Some? ==> 1 <= r.value.1 <= |b| && r.value.0 < 0x1_0000
  {
    var c := b[0] as int;
    if c < 0x80 then Some((c, 1))
    else if 0xC0 <= c < 0xE0 then
      if |b| >= 2 && IsContinuation(b[1]) then Some(((c - 0xC0) * 64 + (b[1] as int - 0x80), 2)) else None
    else if 0xE0 <= c < 0xF0 then
      if |b| >= 3 && IsContinuation(b[1]) && IsContinuation(b[2])
      then Some(((c - 0xE0) * 4096 + (b[1] as int - 0x80) * 64 + (b[2] as int - 0x80), 3))
      else None
    else None
  }

  /** The body `readUTF` decodes after the length prefix: the code units, or `None` for malformed input. */
  function DecodeModifiedUtf8(b: seq<byte>): (r: Option<seq<nat>>)
    decreases |b|
  {
    if b == [] then Some([])
    else
      match FirstUnit(b)
      case None => None
      case Some((u, k)) =>
        match DecodeModifiedUtf8(b[k..])
        case None => None
        case Some(rest) => Some([u] + rest)
  }

  /** Decoding a well-formed prefix and then the rest is decoding the whole. */
  lemma {:induction false} DecodeConcat(a: seq<byte>, b: seq<byte>)
    requires DecodeModifiedUtf8(a).Some?
    ensures DecodeModifiedUtf8(a + b)
         == match DecodeModifiedUtf8(b)
            case None => None
            case Some(r) => Some(DecodeModifiedUtf8(a).value + r)
    decreases |a|
  {
    if a != [] {
      var k := FirstUnit(a).value.1;
      assert FirstUnit(a + b) == FirstUnit(a) by {
        assert (a + b)[0] == a[0];
        if k >= 2 { assert (a + b)[1] == a[1]; }
        if k >= 3 { assert (a + b)[2] == a[2]; }
      }
      var u := FirstUnit(a).value.0;
      var ra := DecodeModifiedUtf8(a[k..]).value;
      assert (a + b)[k..] == a[k..] + b;
      DecodeConcat(a[k..], b);
      match DecodeModifiedUtf8(b)
      case None =>
      case Some(r) =>
        assert DecodeModifiedUtf8(a) == Some([u] + ra);
        assert [u] + (ra + r) == ([u] + ra) + r;
    } else {
      assert a + b == b;
      if DecodeModifiedUtf8(b).Some? {
        assert [] + DecodeModifiedUtf8(b).value == DecodeModifiedUtf8(b).value;
      }
    }
  }

  /** A sequence whose first unit takes all of it decodes to that one unit. */
  lemma DecodeSingle(b: seq<byte>, u: nat)
    requires b != [] && FirstUnit(b) == Some((u, |b|))
    ensures DecodeModifiedUtf8(b) == Some([u])
  {
    assert b[|b|..] == [];
    assert [u] + [] == [u];
  }

  /** One encoded code unit decodes back to itself. */
  lemma DecodeCodeUnit(u: nat)
    requires u < 0x1_0000
    ensures DecodeModifiedUtf8(CodeUnitBytes(u)) == Some([u])
  {
    var b := CodeUnitBytes(u);
    if 1 <= u <= 0x7F {
      DecodeSingle(b, u);
    } else if u <= 0x7FF {
      assert b[0] as int == 0xC0 + u / 64 && b[1] as int == 0x80 + u % 64;
      assert (u / 64) * 64 + u % 64 == u;
      DecodeSingle(b, u);
    } else {
      assert b[0] as int == 0xE0 + u / 4096;
      assert b[1] as int == 0x80 + (u / 64) % 64 && b[2] as int == 0x80 + u % 64;
      SplitUnit(u);
      DecodeSingle(b, u);
    }
  }

  lemma SplitUnit(u: nat)
    requires u < 0x1_0000
    ensures (u / 4096) * 4096 + ((u / 64) % 64) * 64 + u % 64 == u
  {
    var q := u / 64;
    assert q * 64 + u % 64 == u;
    assert (q / 64) * 64 + q % 64 == q;
    assert u / 4096 == q / 64;
  }

  /** The bytes of one character decode to its code units. */
  lemma DecodeCharBytes(c: char)
    ensures DecodeModifiedUtf8(CharBytes(c)) == Some(CharUnits(c))
  {
    var v := c as int;
    if v < 0x1_0000 {
      DecodeCodeUnit(v);
    } else {
      var hi := 0xD800 + (v - 0x1_0000) / 0x400;
      var lo := 0xDC00 + (v - 0x1_0000) % 0x400;
      DecodeCodeUnit(hi);
      DecodeCodeUnit(lo);
      DecodeConcat(CodeUnitBytes(hi), CodeUnitBytes(lo));
      assert [hi] + [lo] == CharUnits(c);
    }
  }

  /**
   * `readUTF` inverts `writeUTF`'s body: the modified UTF-8 form of a
   * string decodes to that string's UTF-16 code units.
   */
  lemma {:induction false} DecodeModifiedUtf8Inverts(s: string)
    ensures DecodeModifiedUtf8(ModifiedUtf8(s)) == Some(Utf16(s))
  {
    if s != [] {
      var p := s[..|s| - 1];
      DecodeModifiedUtf8Inverts(p);
      DecodeCharBytes(s[|s| - 1]);
      DecodeConcat(ModifiedUtf8(p), CharBytes(s[|s| - 1]));
    }
  }

  /**
   * `readUTF` is lenient about overlong forms: `C1 A1` is read as `a`,
   * whose proper form is the single byte `61`. A stray continuation byte
   * is malformed.
   */
  lemma DecodeExamples()
    ensures DecodeModifiedUtf8([0xC1, 0xA1]) == Some([0x61])
    ensures DecodeModifiedUtf8([0x61]) == Some([0x61])
    ensures DecodeModifiedUtf8([0x80]) == None
  {
    var overlong: seq<byte> := [0xC1, 0xA1];
    assert IsContinuation(overlong[1]);
    assert FirstUnit(overlong) == Some((0x61, 2));
    assert overlong[2..] == [];
    assert DecodeModifiedUtf8(overlong[2..]) == Some([]);
    var unit: seq<nat> := [0x61];
    assert unit + [] == unit;
    assert DecodeModifiedUtf8(overlong) == Some(unit);
    var proper: seq<byte> := [0x61];
    assert FirstUnit(proper) == Some((0x61, 1));
    assert proper[1..] == [];
  }

  /** `writeUTF(s)` succeeds exactly when the encoded body fits the 16-bit length. */
  function WriteUtf(s: string): (r: Option<seq<byte>>)
    ensures r.Some? <==> |ModifiedUtf8(s)| < 0x1_0000
    ensures r.Some? ==> |r.value| == 2 + |ModifiedUtf8(s)|
    ensures r.Some? ==> ReadUInt16(r.value) == |ModifiedUtf8(s)|
  {
    var body := ModifiedUtf8(s);
    if |body| < 0x1_0000 then
      ReadUInt16OfUInt16Bytes(|body|, body);
      Some(UInt16Bytes(|body|) + body)
    else None
  }
}
