/**
 * The content fingerprint: a SHA-256 digest rendered as lower-case hexadecimal, two digits
 * per digest byte. SHA-256 itself (and the UTF-8 encoding before it) is a parameter: any
 * deterministic function from text to 32 signed Java bytes.
 */
module ContentHash {

  /** A Java `byte`: signed, eight bits. */
  type JByte = b: int | -128 <= b < 128

  /** What `MessageDigest.getInstance("SHA-256").digest(...)` returns: 32 bytes. */
  type Digest = d: seq<JByte> | |d| == 32 witness seq(32, (_: int) => 0 as JByte)

  const HexDigits: string := "0123456789abcdef"

  predicate IsLowerHexDigit(c: char) {
    '0' <= c <= '9' || 'a' <= c <= 'f'
  }

  predicate IsLowerHex(s: string) {
    forall i :: 0 <= i < |s| ==> IsLowerHexDigit(s[i])
  }

  /** `%02x` formats a negative byte as the unsigned value obtained by adding 2^8. */
  function Unsigned(b: JByte): (u: int)
    ensures 0 <= u < 256
    ensures u == b || u == b + 256
  {
    if b < 0 then b + 256 else b
  }

  /** `String.format("%02x", b)`. */
  function ByteHex(b: JByte): (r: string)
    ensures |r| == 2 && IsLowerHex(r)
  {
    var u := Unsigned(b);
    [HexDigits[u / 16], HexDigits[u % 16]]
  }

  /** The value of one lower-case hexadecimal digit. */
  function DigitValue(c: char): (v: int)
    requires IsLowerHexDigit(c)
    ensures 0 <= v < 16 && HexDigits[v] == c
  {
    if c <= '9' then c as int - '0' as int else c as int - 'a' as int + 10
  }

  /** Reads back the byte value of two hexadecimal digits. */
  function ParseByte(s: string): int
    requires |s| == 2 && IsLowerHex(s)
  {
    16 * DigitValue(s[0]) + DigitValue(s[1])
  }

  /** Hex digits of a digest, in byte order. */
  function Hex(bytes: seq<JByte>): (r: string)
    ensures |r| == 2 * |bytes| && IsLowerHex(r)
  {
    if bytes == [] then "" else ByteHex(bytes[0]) + Hex(bytes[1..])
  }

  /** Reads back the unsigned byte values of a hexadecimal string of even length. */
  function Unhex(s: string): (r: seq<int>)
    requires |s| % 2 == 0 && IsLowerHex(s)
    ensures |r| == |s| / 2
  {
    if s == [] then [] else [ParseByte(s[..2])] + Unhex(s[2..])
  }

  /** The stored fingerprint of a normalised content. */
  function Fingerprint(sha256: string -> Digest, s: string): (h: string)
    ensures |h| == 64 && IsLowerHex(h)
  {
    Hex(sha256(s))
  }

  lemma ByteHexRoundTrip(b: JByte)
    ensures ParseByte(ByteHex(b)) == Unsigned(b)
  {
    var u := Unsigned(b);
    var r := ByteHex(b);
    assert DigitValue(r[0]) == u / 16 && DigitValue(r[1]) == u % 16;
  }

  /** Reading the hex digits back gives the unsigned digest bytes. */
  lemma {:induction false} HexRoundTrip(bytes: seq<JByte>)
    ensures Unhex(Hex(bytes)) == seq(|bytes|, k requires 0 <= k < |bytes| => Unsigned(bytes[k]))
  {
    if bytes != [] {
      var h := Hex(bytes);
      assert h[..2] == ByteHex(bytes[0]) && h[2..] == Hex(bytes[1..]);
      ByteHexRoundTrip(bytes[0]);
      HexRoundTrip(bytes[1..]);
    }
  }

  /** Distinct digests give distinct hexadecimal strings. */
  lemma HexInjective(a: seq<JByte>, b: seq<JByte>)
    requires Hex(a) == Hex(b)
    ensures a == b
  {
    HexRoundTrip(a);
    HexRoundTrip(b);
    assert |a| == |b|;
    forall k | 0 <= k < |a| ensures a[k] == b[k] {
      assert Unhex(Hex(a))[k] == Unsigned(a[k]);
      assert Unhex(Hex(b))[k] == Unsigned(b[k]);
    }
  }

  /** Equal fingerprints: equal digests. The hex form loses nothing of the digest. */
  lemma FingerprintDeterminesDigest(sha256: string -> Digest, s: string, t: string)
    requires Fingerprint(sha256, s) == Fingerprint(sha256, t)
    ensures sha256(s) == sha256(t)
  {
    HexInjective(sha256(s), sha256(t));
  }

  lemma {:induction false} HexAppend(a: seq<JByte>, b: seq<JByte>)
    ensures Hex(a + b) == Hex(a) + Hex(b)
  {
    if a == [] {
      assert a + b == b;
    } else {
      assert (a + b)[0] == a[0] && (a + b)[1..] == a[1..] + b;
      HexAppend(a[1..], b);
    }
  }

  /** `sha256(s)`: digest, then append `%02x` of each byte to a string builder. */
  method Sha256(sha256: string -> Digest, s: string) returns (h: string)
    ensures h == Fingerprint(sha256, s)
  {
    var bytes := sha256(s);
    var sb := "";
    var i := 0;
    while i < |bytes|
      invariant 0 <= i <= |bytes|
      invariant sb == Hex(bytes[..i])
    {
      HexAppend(bytes[..i], [bytes[i]]);
      assert bytes[..i + 1] == bytes[..i] + [bytes[i]];
      sb := sb + ByteHex(bytes[i]);
      i := i + 1;
    }
    assert bytes[..i] == bytes;
    h := sb;
  }
}
