/**
 * Byte strings as the Web platform hands them around: the HMAC message written by a
 * DataView, the digest read through a Uint8Array, and the key bytes produced by TextEncoder.
 */
module Bytes {
  import opened Arith

  /** An octet of an ArrayBuffer, as a Uint8Array element reads it: an integer in [0, 255]. */
  type byte = x: int | 0 <= x < 256

  /** The n low-order bytes of v, most significant first (v is reduced mod 256^n). */
  function BigEndian(v: nat, n: nat): (s: seq<byte>)
    ensures |s| == n
  {
    if n == 0 then [] else BigEndian(v / 256, n - 1) + [(v % 256) as byte]
  }

  /** The unsigned integer a big-endian byte string denotes. */
  function BigEndianValue(s: seq<byte>): nat
  {
    if s == [] then 0 else BigEndianValue(s[..|s| - 1]) * 256 + s[|s| - 1]
  }

  /** Reading back an n-byte big-endian encoding gives v mod 256^n. */
  lemma {:induction false} BigEndianRoundTrip(v: nat, n: nat)
    ensures BigEndianValue(BigEndian(v, n)) == v % Pow(256, n)
  {
    if n > 0 {
      var s := BigEndian(v, n);
      var init := BigEndian(v / 256, n - 1);
      assert s == init + [(v % 256) as byte];
      assert s[..n - 1] == init;
      var p := Pow(256, n - 1);
      var x := BigEndianValue(init);
      assert BigEndianValue(s) == x * 256 + v % 256;
      BigEndianRoundTrip(v / 256, n - 1);
      assert x == v / 256 % p;
      ModSplit(v, 256, p);
    }
  }

  /** The value of a concatenation: the left part is shifted by the width of the right part. */
  lemma {:induction false} BigEndianValueAppend(a: seq<byte>, b: seq<byte>)
    ensures BigEndianValue(a + b) == BigEndianValue(a) * Pow(256, |b|) + BigEndianValue(b)
  {
    if b == [] {
      assert a + b == a;
    } else {
      var ab, b' := a + b, b[..|b| - 1];
      var c := b[|b| - 1];
      assert ab[..|ab| - 1] == a + b';
      assert ab[|ab| - 1] == c;
      BigEndianValueAppend(a, b');
      var x, y, p := BigEndianValue(a), BigEndianValue(b'), Pow(256, |b'|);
      assert BigEndianValue(ab) == (x * p + y) * 256 + c;
      assert BigEndianValue(b) == y * 256 + c;
      assert Pow(256, |b|) == p * 256;
      ShiftAdd(x, p, y, 256);
    }
  }

  /** True when every character is in the 7-bit ASCII range. */
  predicate IsAscii(s: string)
  {
    forall i :: 0 <= i < |s| ==> s[i] as int < 0x80
  }

  /** The UTF-8 encoding of one Unicode scalar value (1 to 4 bytes). */
  function Utf8Char(c: char): (s: seq<byte>)
    ensures 1 <= |s| <= 4
    ensures (|s| == 1) == (c as int < 0x80)
  {
    var n := c as int;
    if n < 0x80 then [n as byte]
    else if n < 0x800 then [(0xC0 + n / 0x40) as byte, (0x80 + n % 0x40) as byte]
    else if n < 0x1_0000 then
      [(0xE0 + n / 0x1000) as byte, (0x80 + n / 0x40 % 0x40) as byte, (0x80 + n % 0x40) as byte]
    else
      [(0xF0 + n / 0x4_0000) as byte, (0x80 + n / 0x1000 % 0x40) as byte,
       (0x80 + n / 0x40 % 0x40) as byte, (0x80 + n % 0x40) as byte]
  }

  /** TextEncoder.encode: the UTF-8 bytes of a string. */
  function Utf8Encode(s: string): (bs: seq<byte>)
    ensures |bs| >= |s|
  {
    if s == [] then [] else Utf8Encode(s[..|s| - 1]) + Utf8Char(s[|s| - 1])
  }

  /** An ASCII string encodes to one byte per character, each the character's code. */
  lemma {:induction false} Utf8EncodeAscii(s: string)
    requires IsAscii(s)
    ensures |Utf8Encode(s)| == |s|
    ensures forall i :: 0 <= i < |s| ==> Utf8Encode(s)[i] as int == s[i] as int
  {
    if s != [] {
      var init, c := s[..|s| - 1], s[|s| - 1];
      assert IsAscii(init) by {
        forall i | 0 <= i < |init| ensures init[i] as int < 0x80 {
          assert init[i] == s[i];
        }
      }
      Utf8EncodeAscii(init);
      assert c as int < 0x80;
      assert Utf8Char(c) == [c as int as byte];
      assert Utf8Encode(s) == Utf8Encode(init) + [c as int as byte];
    }
  }

  /** Two distinct ASCII strings never encode to the same key bytes. */
  lemma Utf8EncodeAsciiInjective(s: string, t: string)
    requires IsAscii(s) && IsAscii(t) && s != t
    ensures Utf8Encode(s) != Utf8Encode(t)
  {
    Utf8EncodeAscii(s);
    Utf8EncodeAscii(t);
    if |s| == |t| {
      var i :| 0 <= i < |s| && s[i] != t[i];
      assert Utf8Encode(s)[i] != Utf8Encode(t)[i];
    }
  }
}
