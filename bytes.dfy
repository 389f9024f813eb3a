/** Java bytes and the char/byte conversions the core applies to ASCII text. */
module Bytes {

  /** A Java `byte`; the signed values -54, -2, -70, -66 are 0xCA, 0xFE, 0xBA, 0xBE. */
  type Byte = bv8

  predicate IsAscii(s: string) {
    forall k :: 0 <= k < |s| ==> s[k] as int < 128
  }

  /** UTF-8 encoding of a string, exact for ASCII text (one byte per character). */
  function AsciiBytes(s: string): (b: seq<Byte>)
    ensures |b| == |s|
  {
    seq(|s|, k requires 0 <= k < |s| => (s[k] as int % 256) as Byte)
  }

  /** Decoding of bytes to chars, one char per byte; agrees with UTF-8 on bytes below 128. */
  function Latin1Chars(b: seq<Byte>): (s: string)
    ensures |s| == |b|
  {
    seq(|b|, k requires 0 <= k < |b| => (b[k] as int) as char)
  }

  /** ASCII text survives the trip to bytes and back. */
  lemma AsciiRoundTrip(s: string)
    requires IsAscii(s)
    ensures Latin1Chars(AsciiBytes(s)) == s
  {
    var b := AsciiBytes(s);
    forall k | 0 <= k < |s| ensures Latin1Chars(b)[k] == s[k] {
      assert (s[k] as int % 256) == s[k] as int;
      assert ((s[k] as int % 256) as Byte) as int == s[k] as int;
    }
  }

  /** Decoding is injective: equal decoded text means equal bytes. */
  lemma Latin1Injective(a: seq<Byte>, b: seq<Byte>)
    requires Latin1Chars(a) == Latin1Chars(b)
    ensures a == b
  {
    assert |a| == |b|;
    forall k | 0 <= k < |a| ensures a[k] == b[k] {
      assert Latin1Chars(a)[k] == Latin1Chars(b)[k];
      assert (a[k] as int) as char == (b[k] as int) as char;
    }
  }
}
