/** Bytes and the UTF-8 encoding of text.

    `ByteBufUtil.encodeString(..., CharsetUtil.UTF_8)` turns the escaped key
    into bytes, and the form escaper percent-encodes the UTF-8 bytes of every
    character it does not keep. A Dafny `char` is a Unicode scalar value, so
    every character has exactly one UTF-8 encoding of one to four bytes.
 */
module Utf8 {

  type Byte = b: int | 0 <= b < 0x100
  type Bytes = seq<Byte>

  /** The UTF-8 encoding of one scalar value (section 3 of RFC 3629). */
  function EncodeChar(c: char): (r: Bytes)
    ensures 1 <= |r| <= 4
    ensures |r| == 1 <==> c as int < 0x80
    ensures |r| == 1 ==> r[0] == c as int
    ensures |r| > 1 ==> forall i :: 0 <= i < |r| ==> r[i] >= 0x80
  {
    var n := c as int;
    if n < 0x80 then [n]
    else if n < 0x800 then [0xC0 + n / 0x40, 0x80 + n % 0x40]
    else if n < 0x1_0000 then [0xE0 + n / 0x1000, 0x80 + (n / 0x40) % 0x40, 0x80 + n % 0x40]
    else [0xF0 + n / 0x4_0000, 0x80 + (n / 0x1000) % 0x40, 0x80 + (n / 0x40) % 0x40, 0x80 + n % 0x40]
  }

  /** The UTF-8 encoding of a string: the encodings of its characters, in order. */
  function Encode(s: string): (r: Bytes)
    ensures |r| >= |s|
  {
    if |s| == 0 then [] else EncodeChar(s[0]) + Encode(s[1..])
  }

  predicate IsAscii(s: string) {
    forall i :: 0 <= i < |s| ==> s[i] as int < 0x80
  }

  /** An ASCII string is encoded one byte per character, each byte being the
      character's code. */
  lemma {:induction false} EncodeAscii(s: string)
    requires IsAscii(s)
    ensures |Encode(s)| == |s|
    ensures forall i :: 0 <= i < |s| ==> Encode(s)[i] == s[i] as int
  {
    if |s| > 0 {
      assert IsAscii(s[1..]) by {
        forall i | 0 <= i < |s[1..]| ensures s[1..][i] as int < 0x80 {
          assert s[1..][i] == s[i + 1];
        }
      }
      EncodeAscii(s[1..]);
    }
  }

  /** A byte below 0x80 occurs in the encoding only where its own character
      occurs in the text: multi-byte sequences never contain ASCII bytes. */
  lemma {:induction false} AsciiByteOnlyFromItsChar(s: string, b: Byte)
    requires b < 0x80
    requires forall i :: 0 <= i < |s| ==> s[i] as int != b
    ensures forall j :: 0 <= j < |Encode(s)| ==> Encode(s)[j] != b
  {
    if |s| > 0 {
      AsciiByteOnlyFromItsChar(s[1..], b);
      var head := EncodeChar(s[0]);
      forall j | 0 <= j < |Encode(s)| ensures Encode(s)[j] != b {
        if j >= |head| {
          assert Encode(s)[j] == Encode(s[1..])[j - |head|];
        }
      }
    }
  }
}
