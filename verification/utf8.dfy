/** Python's `str.encode()` with the default UTF-8 codec, which is how the
    miner turns the job prefix and the device reply into the bytes the
    checksum is computed over. Dafny characters are Unicode scalar values,
    so (as in Python for such strings) encoding never fails. */
module Utf8 {

  type Byte = b: int | 0 <= b < 256

  /** Continuation byte `10xxxxxx` carrying the six bits `v % 64`. */
  function Continuation(v: nat): (b: Byte)
    ensures 0x80 <= b < 0xC0
  {
    0x80 + v % 64
  }

  /** The UTF-8 encoding of one character: one to four bytes, the lead
      byte announcing the length and every other byte a continuation byte. */
  function EncodeChar(c: char): (bytes: seq<Byte>)
    ensures 1 <= |bytes| <= 4
    ensures |bytes| == 1 <==> (c as int) < 0x80
    ensures |bytes| == 1 ==> bytes[0] == c as int
    ensures |bytes| == 2 ==> 0xC0 <= bytes[0] < 0xE0
    ensures |bytes| == 3 ==> 0xE0 <= bytes[0] < 0xF0
    ensures |bytes| == 4 ==> 0xF0 <= bytes[0] < 0xF8
    ensures forall i :: 1 <= i < |bytes| ==> 0x80 <= bytes[i] < 0xC0
  {
    var n := c as int;
    if n < 0x80 then [n]
    else if n < 0x800 then [0xC0 + n / 64, Continuation(n)]
    else if n < 0x10000 then [0xE0 + n / 4096, Continuation(n / 64), Continuation(n)]
    else
      assert n / 262144 < 8 by { assert n < 0x110000; }
      [0xF0 + n / 262144, Continuation(n / 4096), Continuation(n / 64), Continuation(n)]
  }

  /** The code point a one-to-four byte sequence stands for. */
  function DecodeChar(b: seq<Byte>): int
    requires 1 <= |b| <= 4
  {
    var lead: int := b[0];
    var tail: seq<int> := seq(|b| - 1, i requires 0 <= i < |b| - 1 => b[i + 1] as int - 0x80);
    if |b| == 1 then lead
    else if |b| == 2 then (lead - 0xC0) * 64 + tail[0]
    else if |b| == 3 then ((lead - 0xE0) * 64 + tail[0]) * 64 + tail[1]
    else (((lead - 0xF0) * 64 + tail[0]) * 64 + tail[1]) * 64 + tail[2]
  }

  lemma SixBits(n: nat)
    ensures n == (n / 64) * 64 + n % 64
  {
  }

  /** Decoding a character's encoding gives back its code point. */
  lemma CharRoundTrip(c: char)
    ensures DecodeChar(EncodeChar(c)) == c as int
  {
    var n := c as int;
    var n1 := n / 64;
    var n2 := n1 / 64;
    var n3 := n2 / 64;
    SixBits(n);
    SixBits(n1);
    SixBits(n2);
    assert n / 4096 == n2;
    assert n / 262144 == n3;
  }

  /** Python's `s.encode()`. */
  function Encode(s: string): (bytes: seq<Byte>)
    ensures |s| <= |bytes| <= 4 * |s|
  {
    if |s| == 0 then [] else EncodeChar(s[0]) + Encode(s[1..])
  }

  lemma {:induction false} EncodeAppend(a: string, b: string)
    ensures Encode(a + b) == Encode(a) + Encode(b)
  {
    if |a| > 0 {
      assert (a + b)[1..] == a[1..] + b;
      EncodeAppend(a[1..], b);
    } else {
      assert a + b == b;
    }
  }

  predicate IsAscii(s: string)
  {
    forall i :: 0 <= i < |s| ==> (s[i] as int) < 0x80
  }

  /** ASCII text encodes to its character codes, one byte each. */
  lemma {:induction false} EncodeAscii(s: string)
    requires IsAscii(s)
    ensures |Encode(s)| == |s|
    ensures forall i :: 0 <= i < |s| ==> Encode(s)[i] == s[i] as int
  {
    if |s| > 0 {
      EncodeAscii(s[1..]);
      assert Encode(s) == [s[0] as int] + Encode(s[1..]);
    }
  }
}
