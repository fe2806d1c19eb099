/**
 * File identity: the descriptor a node advertises for each shared file,
 * its colon-joined text form, and the content hash (lowercase hex of the
 * SHA-256 digest of the file's bytes).
 */
module Metadata {
  import opened Wrappers
  import opened Bytes
  import opened JavaText

  /**
   * The descriptor; immutable once built, and its getters are the field
   * selectors. `fileSize` is a Java `long`, `ownerPort` an `int`.
   */
  datatype FileMetadata = FileMetadata(fileName: string, fileSize: int, ownerIP: string, ownerPort: int, fileHash: string) {

    /** The textual fields `toString` puts between its colons. */
    function Fields(): seq<string> {
      [fileName, IntToString(fileSize), ownerIP, IntToString(ownerPort), fileHash]
    }

    /** True when `split(":")` can take the text form apart again. */
    predicate Splittable() {
      NoColon(fileName) && NoColon(ownerIP) && NoColon(fileHash) && fileHash != ""
    }

    /** `toString`: `name:size:ip:port:hash`; split back, it yields exactly its fields. */
    function ToString(): (r: string)
      ensures Splittable() ==> JavaSplit(r) == Fields()
    {
      var r := fileName + ":" + IntToString(fileSize) + ":" + ownerIP + ":" + IntToString(ownerPort) + ":" + fileHash;
      if Splittable() then
        JoinOfFive(fileName, IntToString(fileSize), ownerIP, IntToString(ownerPort), fileHash);
        JavaSplitJoin(Fields());
        r
      else r
    }
  }

  /** Five fields joined by colons. */
  lemma JoinOfFive(a: string, b: string, c: string, d: string, e: string)
    ensures Join([a, b, c, d, e]) == a + ":" + b + ":" + c + ":" + d + ":" + e
  {
    var f := [a, b, c, d, e];
    assert Join(f[4..]) == e by { assert f[4..] == [e]; }
    assert Join(f[3..]) == d + ":" + e by { assert f[3..][1..] == f[4..]; }
    assert Join(f[2..]) == c + ":" + d + ":" + e by { assert f[2..][1..] == f[3..]; }
    assert Join(f[1..]) == b + ":" + c + ":" + d + ":" + e by { assert f[1..][1..] == f[2..]; }
  }

  /** The text form is the fields joined by colons. */
  lemma ToStringIsJoin(m: FileMetadata)
    ensures m.ToString() == Join(m.Fields())
  {
    JoinOfFive(m.fileName, IntToString(m.fileSize), m.ownerIP, IntToString(m.ownerPort), m.fileHash);
  }

  /** With splittable fields, field 4 of the text form is the hash. */
  lemma HashIsFieldFour(m: FileMetadata)
    requires m.Splittable()
    ensures |JavaSplit(m.ToString())| == 5 && JavaSplit(m.ToString())[4] == m.fileHash
  {
  }

  // ----- hexadecimal rendering of digests -----

  predicate IsHexDigit(c: char) { '0' <= c <= '9' || 'a' <= c <= 'f' }

  predicate IsLowerHex(s: string) { forall i :: 0 <= i < |s| ==> IsHexDigit(s[i]) }

  /** `Character.forDigit(d, 16)`: a lowercase hex digit. */
  function ForDigit(d: nat): (c: char)
    requires d < 16
    ensures IsHexDigit(c)
  {
    if d < 10 then ('0' as int + d) as char else ('a' as int + d - 10) as char
  }

  /** `Integer.toString(n, 16)` for a non-negative `n`. */
  function Radix16(n: nat): (r: string)
    ensures |r| >= 1
  {
    if n < 16 then [ForDigit(n)] else Radix16(n / 16) + [ForDigit(n % 16)]
  }

  /**
   * One byte as `Integer.toString((b & 0xff) + 0x100, 16).substring(1)`:
   * adding 0x100 forces three digits, so dropping the first leaves the
   * zero-padded two-digit form, high nibble first.
   */
  function ByteToHex(b: byte): (r: string)
    ensures r == [ForDigit(b as int / 16), ForDigit(b as int % 16)]
  {
    var v := b as int + 0x100;
    assert v / 16 == 16 + b as int / 16 && v % 16 == b as int % 16;
    assert Radix16(v / 16) == [ForDigit(1), ForDigit(b as int / 16)];
    Radix16(v)[1..]
  }

  /** What `convertByteArrayToHexString` builds: the bytes' hex forms, in order. */
  function Hex(bs: seq<byte>): (r: string)
    ensures |r| == 2 * |bs|
    ensures IsLowerHex(r)
  {
    if bs == [] then ""
    else
      Hex(bs[..|bs| - 1]) + ByteToHex(bs[|bs| - 1])
  }

  /** `convertByteArrayToHexString`: appends each byte's two digits to a builder. */
  method ConvertByteArrayToHexString(arrayBytes: array<byte>) returns (s: string)
    ensures |s| == 2 * arrayBytes.Length && IsLowerHex(s)
    ensures s == Hex(arrayBytes[..])
  {
    s := "";
    var i := 0;
    while i < arrayBytes.Length
      invariant 0 <= i <= arrayBytes.Length
      invariant s == Hex(arrayBytes[..i])
    {
      assert arrayBytes[..i + 1][..i] == arrayBytes[..i];
      s := s + ByteToHex(arrayBytes[i]);
      i := i + 1;
    }
    assert arrayBytes[..i] == arrayBytes[..];
  }

  function HexValue(c: char): (v: nat)
    requires IsHexDigit(c)
    ensures v < 16
  {
    if c <= '9' then c as int - '0' as int else c as int - 'a' as int + 10
  }

  /** Reads pairs of hex digits back into bytes. */
  function FromHex(s: string): (r: seq<byte>)
    requires |s| % 2 == 0 && IsLowerHex(s)
    ensures |r| == |s| / 2
  {
    if s == [] then []
    else FromHex(s[..|s| - 2]) + [PairValue(s[|s| - 2], s[|s| - 1])]
  }

  /** The byte whose high and low nibbles two hex digits spell. */
  function PairValue(hi: char, lo: char): byte
    requires IsHexDigit(hi) && IsHexDigit(lo)
  {
    (HexValue(hi) * 16 + HexValue(lo)) as byte
  }

  lemma HexValueOfForDigit(d: nat)
    requires d < 16
    ensures HexValue(ForDigit(d)) == d
  {
  }

  /** A byte's two digits read back as the byte. */
  lemma ByteFromDigits(b: byte)
    ensures PairValue(ByteToHex(b)[0], ByteToHex(b)[1]) == b
  {
    HexValueOfForDigit(b as int / 16);
    HexValueOfForDigit(b as int % 16);
  }

  /** Decoding a text that ends in one byte's two digits yields that byte last. */
  lemma FromHexStep(t: string, b: byte)
    requires |t| % 2 == 0 && IsLowerHex(t)
    ensures IsLowerHex(t + ByteToHex(b))
    ensures FromHex(t + ByteToHex(b)) == FromHex(t) + [b]
  {
    var d := ByteToHex(b);
    var h := t + d;
    assert IsLowerHex(h) by {
      forall i | 0 <= i < |h| ensures IsHexDigit(h[i]) {
        if i < |t| { assert h[i] == t[i]; } else { assert h[i] == d[i - |t|]; }
      }
    }
    assert h[..|h| - 2] == t;
    assert h[|h| - 2] == d[0] && h[|h| - 1] == d[1];
    ByteFromDigits(b);
  }

  /** The hex rendering is decodable: the bytes come back from their text. */
  lemma {:induction false} FromHexOfHex(bs: seq<byte>)
    ensures FromHex(Hex(bs)) == bs
  {
    if bs != [] {
      var p, b := bs[..|bs| - 1], bs[|bs| - 1];
      assert bs == p + [b];
      assert Hex(bs) == Hex(p) + ByteToHex(b);
      FromHexOfHex(p);
      FromHexStep(Hex(p), b);
    }
  }

  /** So two different digests never render to the same hash text. */
  lemma HexInjective(a: seq<byte>, b: seq<byte>)
    requires Hex(a) == Hex(b)
    ensures a == b
  {
    FromHexOfHex(a);
    FromHexOfHex(b);
  }

  /**
   * `calculateHash`: the hex of the SHA-256 digest of the file's bytes, or
   * `null` (`None`) when opening, reading or digesting throws. The digest
   * itself comes from a library and is passed in as `sha256`; `contents`
   * is `None` when the file cannot be read.
   */
  function CalculateHash(contents: Option<seq<byte>>, sha256: seq<byte> -> seq<byte>): (r: Option<string>)
    ensures r.None? <==> contents.None?
    ensures r.Some? ==> IsLowerHex(r.value) && |r.value| == 2 * |sha256(contents.value)|
    ensures r.Some? ==> FromHex(r.value) == sha256(contents.value)
  {
    match contents
    case None => None
    case Some(bytes) =>
      FromHexOfHex(sha256(bytes));
      Some(Hex(sha256(bytes)))
  }

  /** Same bytes, same hash, whatever the file is called or where it lies. */
  lemma HashDependsOnlyOnContent(a: Option<seq<byte>>, b: Option<seq<byte>>, sha256: seq<byte> -> seq<byte>)
    requires a.Some? && b.Some? && a.value == b.value
    ensures CalculateHash(a, sha256) == CalculateHash(b, sha256)
  {
  }

  /** A 32-byte digest renders as 64 ASCII characters: the header's hash allowance. */
  lemma DigestHashFitsHeader(bytes: seq<byte>, sha256: seq<byte> -> seq<byte>)
    requires |sha256(bytes)| == 32
    ensures |CalculateHash(Some(bytes), sha256).value| == 64
    ensures IsAscii(CalculateHash(Some(bytes), sha256).value)
    ensures |ModifiedUtf8(CalculateHash(Some(bytes), sha256).value)| == 64
  {
    var h := CalculateHash(Some(bytes), sha256).value;
    assert IsAscii(h) by {
      forall i | 0 <= i < |h| ensures 1 <= h[i] as int <= 0x7F { assert IsHexDigit(h[i]); }
    }
    ModifiedUtf8OfAscii(h);
  }
}
