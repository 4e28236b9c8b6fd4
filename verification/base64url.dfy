/** `Base64.getUrlEncoder()` and `Base64.getUrlDecoder()` of java.util.

    The alphabet is the URL- and filename-safe one of section 5 of RFC 4648.
    The encoder pads with `=`. The decoder is Java's: it accepts input with
    the final padding left out, rejects a padded final unit whose padding is
    incomplete (`xx=`), rejects characters outside the alphabet, and rejects
    anything after the padding. It does not check that the unused low bits
    of the last character are zero.
 */
module Base64Url {
  import opened Results
  import opened Utf8

  type Sextet = x: int | 0 <= x < 64

  predicate IsAlphabetChar(c: char) {
    ('A' <= c <= 'Z') || ('a' <= c <= 'z') || ('0' <= c <= '9') || c == '-' || c == '_'
  }

  /** The character that encodes a 6-bit value. */
  function CharOf(v: Sextet): (c: char)
    ensures IsAlphabetChar(c)
    ensures ValueOf(c) == v
  {
    if v < 26 then ('A' as int + v) as char
    else if v < 52 then ('a' as int + (v - 26)) as char
    else if v < 62 then ('0' as int + (v - 52)) as char
    else if v == 62 then '-'
    else '_'
  }

  /** The 6-bit value an alphabet character encodes. */
  function ValueOf(c: char): Sextet
    requires IsAlphabetChar(c)
  {
    if 'A' <= c <= 'Z' then c as int - 'A' as int
    else if 'a' <= c <= 'z' then c as int - 'a' as int + 26
    else if '0' <= c <= '9' then c as int - '0' as int + 52
    else if c == '-' then 62
    else 63
  }

  /** Three bytes as four characters. */
  function Quad(b0: Byte, b1: Byte, b2: Byte): string {
    [CharOf(b0 / 4), CharOf((b0 % 4) * 16 + b1 / 16), CharOf((b1 % 16) * 4 + b2 / 64), CharOf(b2 % 64)]
  }

  /** `encodeToString`: groups of three bytes, then a padded final unit. */
  function Encode(b: Bytes): (r: string)
    ensures |r| == 4 * ((|b| + 2) / 3)
    ensures forall i :: 0 <= i < |r| ==> IsAlphabetChar(r[i]) || r[i] == '='
    decreases |b|
  {
    if |b| == 0 then []
    else if |b| == 1 then [CharOf(b[0] / 4), CharOf((b[0] % 4) * 16), '=', '=']
    else if |b| == 2 then [CharOf(b[0] / 4), CharOf((b[0] % 4) * 16 + b[1] / 16), CharOf((b[1] % 16) * 4), '=']
    else
      assert (|b| + 2) / 3 == (|b[3..]| + 2) / 3 + 1;
      Quad(b[0], b[1], b[2]) + Encode(b[3..])
  }

  /** The bytes held by a (possibly partial) unit of decoded characters: two
      characters give one byte, three give two, four give three. */
  function UnitBytes(unit: seq<Sextet>): (r: Bytes)
    requires 2 <= |unit| <= 4
    ensures |r| == |unit| - 1
  {
    var b0: int := (unit[0] as int) * 4 + (unit[1] as int) / 16;
    if |unit| == 2 then [b0]
    else
      var b1: int := ((unit[1] as int) % 16) * 16 + (unit[2] as int) / 4;
      if |unit| == 3 then [b0, b1]
      else [b0, b1, ((unit[2] as int) % 4) * 64 + unit[3] as int]
  }

  /** Java's `decode0` loop: `unit` holds the characters read so far of the
      current four-character unit. */
  function DecodeFrom(s: string, unit: seq<Sextet>): (r: Option<Bytes>)
    requires |unit| < 4
    ensures (|unit| + |s|) % 4 == 1 ==> r == None
    ensures r.Some? ==> forall i :: 0 <= i < |s| ==> IsAlphabetChar(s[i]) || s[i] == '='
    ensures r.Some? ==> forall i :: 0 <= i < |s| - 2 ==> s[i] != '='
    decreases |s|
  {
    if |s| == 0 then
      // end of input: a unit of one character has too few bits
      if |unit| == 0 then Some([])
      else if |unit| == 1 then None
      else Some(UnitBytes(unit))
    else if s[0] == '=' then
      // padding: `xx==` or `xxx=`, and nothing after it
      if |unit| == 2 && s[1..] == "=" then Some(UnitBytes(unit))
      else if |unit| == 3 && |s| == 1 then Some(UnitBytes(unit))
      else None
    else if !IsAlphabetChar(s[0]) then None
    else
      var u := unit + [ValueOf(s[0])];
      if |u| < 4 then DecodeFrom(s[1..], u)
      else match DecodeFrom(s[1..], []) {
        case None => None
        case Some(rest) => Some(UnitBytes(u) + rest)
      }
  }

  /** `decode`: `None` where Java throws IllegalArgumentException. A lone
      character in the final unit, a character outside the alphabet and `=`,
      and anything but `=` after padding are all rejected. */
  function Decode(s: string): (r: Option<Bytes>)
    ensures |s| % 4 == 1 ==> r == None
    ensures r.Some? ==> forall i :: 0 <= i < |s| ==> IsAlphabetChar(s[i]) || s[i] == '='
    ensures r.Some? ==> forall i :: 0 <= i < |s| - 2 ==> s[i] != '='
  {
    DecodeFrom(s, [])
  }

  /** Reading one alphabet character extends the current unit, or completes
      it and emits its bytes. */
  lemma DecodeStep(c: char, rest: string, unit: seq<Sextet>)
    requires IsAlphabetChar(c) && |unit| < 4
    ensures |unit| < 3 ==> DecodeFrom([c] + rest, unit) == DecodeFrom(rest, unit + [ValueOf(c)])
    ensures |unit| == 3 ==>
      DecodeFrom([c] + rest, unit) ==
        match DecodeFrom(rest, []) {
          case None => None
          case Some(tail) => Some(UnitBytes(unit + [ValueOf(c)]) + tail)
        }
  {
    assert ([c] + rest)[1..] == rest;
  }

  /** The first two characters of a unit only start it. */
  lemma DecodeTwoChars(c0: char, c1: char, rest: string)
    requires IsAlphabetChar(c0) && IsAlphabetChar(c1)
    ensures DecodeFrom([c0, c1] + rest, []) == DecodeFrom(rest, [ValueOf(c0), ValueOf(c1)])
  {
    assert [c0, c1] + rest == [c0] + ([c1] + rest);
    DecodeStep(c0, [c1] + rest, []);
    assert [] + [ValueOf(c0)] == [ValueOf(c0)];
    DecodeStep(c1, rest, [ValueOf(c0)]);
    assert [ValueOf(c0)] + [ValueOf(c1)] == [ValueOf(c0), ValueOf(c1)];
  }

  /** The first three characters of a unit only start it. */
  lemma DecodeThreeChars(c0: char, c1: char, c2: char, rest: string)
    requires IsAlphabetChar(c0) && IsAlphabetChar(c1) && IsAlphabetChar(c2)
    ensures DecodeFrom([c0, c1, c2] + rest, []) == DecodeFrom(rest, [ValueOf(c0), ValueOf(c1), ValueOf(c2)])
  {
    assert [c0, c1, c2] + rest == [c0, c1] + ([c2] + rest);
    DecodeTwoChars(c0, c1, [c2] + rest);
    DecodeStep(c2, rest, [ValueOf(c0), ValueOf(c1)]);
    assert [ValueOf(c0), ValueOf(c1)] + [ValueOf(c2)] == [ValueOf(c0), ValueOf(c1), ValueOf(c2)];
  }

  /** A one-byte final unit: two characters and `==`. */
  lemma DecodeEncodeOne(b: Bytes)
    requires |b| == 1
    ensures Decode(Encode(b)) == Some(b)
  {
    var b0 := b[0];
    var c0, c1 := CharOf(b0 / 4), CharOf((b0 % 4) * 16);
    assert Encode(b) == [c0, c1] + "==";
    DecodeTwoChars(c0, c1, "==");
    assert "=="[1..] == "=";
    UnitBytesOfOne(b0);
    assert b == [b0];
  }

  /** A two-byte final unit: three characters and `=`. */
  lemma DecodeEncodeTwo(b: Bytes)
    requires |b| == 2
    ensures Decode(Encode(b)) == Some(b)
  {
    var b0, b1 := b[0], b[1];
    var c0, c1, c2 := CharOf(b0 / 4), CharOf((b0 % 4) * 16 + b1 / 16), CharOf((b1 % 16) * 4);
    assert Encode(b) == [c0, c1, c2] + "=";
    DecodeThreeChars(c0, c1, c2, "=");
    UnitBytesOfPair(b0, b1);
    assert b == [b0, b1];
  }

  /** Four alphabet characters decode to their unit's three bytes, ahead of
      whatever the rest decodes to. */
  lemma DecodeFullUnit(q: string, rest: string)
    requires |q| == 4
    requires forall i :: 0 <= i < 4 ==> IsAlphabetChar(q[i])
    ensures DecodeFrom(q + rest, []) ==
      match DecodeFrom(rest, []) {
        case None => None
        case Some(tail) => Some(UnitBytes([ValueOf(q[0]), ValueOf(q[1]), ValueOf(q[2]), ValueOf(q[3])]) + tail)
      }
  {
    var v0, v1, v2 := ValueOf(q[0]), ValueOf(q[1]), ValueOf(q[2]);
    assert q + rest == [q[0]] + ([q[1]] + ([q[2]] + ([q[3]] + rest)));
    DecodeStep(q[0], [q[1]] + ([q[2]] + ([q[3]] + rest)), []);
    assert [] + [v0] == [v0];
    DecodeStep(q[1], [q[2]] + ([q[3]] + rest), [v0]);
    assert [v0] + [v1] == [v0, v1];
    DecodeStep(q[2], [q[3]] + rest, [v0, v1]);
    assert [v0, v1] + [v2] == [v0, v1, v2];
    DecodeStep(q[3], rest, [v0, v1, v2]);
    assert [v0, v1, v2] + [ValueOf(q[3])] == [v0, v1, v2, ValueOf(q[3])];
  }

  /** The bytes of a full unit survive encoding and decoding. */
  lemma QuadBytes(b0: Byte, b1: Byte, b2: Byte)
    ensures var q := Quad(b0, b1, b2);
            UnitBytes([ValueOf(q[0]), ValueOf(q[1]), ValueOf(q[2]), ValueOf(q[3])]) == [b0, b1, b2]
  {
    var q := Quad(b0, b1, b2);
    assert [ValueOf(q[0]), ValueOf(q[1]), ValueOf(q[2]), ValueOf(q[3])]
        == [b0 / 4, (b0 % 4) * 16 + b1 / 16, (b1 % 16) * 4 + b2 / 64, b2 % 64];
    UnitBytesOfThree(b0, b1, b2);
  }

  /** The four characters of a full unit hold its three bytes. */
  lemma UnitBytesOfThree(b0: Byte, b1: Byte, b2: Byte)
    ensures UnitBytes([b0 / 4, (b0 % 4) * 16 + b1 / 16, (b1 % 16) * 4 + b2 / 64, b2 % 64]) == [b0, b1, b2]
  {
    Regroup(b0 % 4, b1 / 16, 16);
    Regroup(b1 % 16, b2 / 64, 4);
  }

  /** A value built from a high part and a low digit splits back into them. */
  lemma Regroup(hi: nat, lo: nat, m: nat)
    requires m == 4 || m == 16
    requires 0 <= lo < m
    ensures (hi * m + lo) / m == hi && (hi * m + lo) % m == lo
  {
    if m == 4 {
      assert hi * m + lo == hi * 4 + lo;
    } else {
      assert hi * m + lo == hi * 16 + lo;
    }
  }

  /** Decoding undoes encoding. */
  lemma {:induction false} DecodeEncode(b: Bytes)
    ensures Decode(Encode(b)) == Some(b)
    decreases |b|
  {
    if |b| <= 2 {
      DecodeEncodeShort(b);
    } else {
      DecodeEncode(b[3..]);
      assert Encode(b) == Quad(b[0], b[1], b[2]) + Encode(b[3..]);
      DecodeAfterQuad(b[0], b[1], b[2], Encode(b), Encode(b[3..]));
      assert b == [b[0], b[1], b[2]] + b[3..];
    }
  }

  /** Decoding undoes encoding for inputs shorter than a full unit. */
  lemma DecodeEncodeShort(b: Bytes)
    requires |b| <= 2
    ensures Decode(Encode(b)) == Some(b)
  {
    if |b| == 1 {
      DecodeEncodeOne(b);
    } else if |b| == 2 {
      DecodeEncodeTwo(b);
    }
  }

  /** Encoding at least one byte gives at least one unit. */
  lemma EncodeNonEmpty(b: Bytes)
    requires |b| > 0
    ensures |Encode(b)| >= 4
  {
    assert (|b| + 2) / 3 >= 1;
  }

  /** No encoding contains `:`, the envelope separator. */
  lemma EncodeHasNoColon(b: Bytes)
    ensures ':' !in Encode(b)
  {
  }

  /** Encoding a final unit of one byte and dropping its last `=` leaves
      `xx=`, which Java rejects. */
  lemma DecodeTruncatedOne(b: Bytes)
    requires |b| == 1
    ensures var e := Encode(b); Decode(e[..|e| - 1]) == None
  {
    var b0 := b[0];
    var c0, c1 := CharOf(b0 / 4), CharOf((b0 % 4) * 16);
    assert Encode(b)[..3] == [c0, c1] + "=";
    DecodeTwoChars(c0, c1, "=");
  }

  /** Encoding a final unit of two bytes and dropping its `=` leaves the
      unpadded form, which Java accepts. */
  lemma DecodeTruncatedTwo(b: Bytes)
    requires |b| == 2
    ensures var e := Encode(b); Decode(e[..|e| - 1]) == Some(b)
  {
    var b0, b1 := b[0], b[1];
    var c0, c1, c2 := CharOf(b0 / 4), CharOf((b0 % 4) * 16 + b1 / 16), CharOf((b1 % 16) * 4);
    assert Encode(b)[..3] == [c0, c1, c2] + [];
    DecodeThreeChars(c0, c1, c2, []);
    UnitBytesOfPair(b0, b1);
    assert b == [b0, b1];
  }

  /** Dropping the last character of a full unit loses its last byte. */
  lemma DecodeTruncatedThree(b: Bytes)
    requires |b| == 3
    ensures var e := Encode(b); Decode(e[..|e| - 1]) == Some(b[..2])
  {
    var b0, b1, b2 := b[0], b[1], b[2];
    var c0, c1, c2 := CharOf(b0 / 4), CharOf((b0 % 4) * 16 + b1 / 16), CharOf((b1 % 16) * 4 + b2 / 64);
    assert Encode(b)[..3] == [c0, c1, c2] + [];
    DecodeThreeChars(c0, c1, c2, []);
    UnitBytesOfTwo(b0, b1, b2);
    assert b[..2] == [b0, b1];
  }

  /** The two characters of a one-byte unit hold that byte. */
  lemma UnitBytesOfOne(b0: Byte)
    ensures UnitBytes([b0 / 4, (b0 % 4) * 16]) == [b0]
  {
    Regroup(b0 % 4, 0, 16);
  }

  /** The three characters of a two-byte unit hold those bytes. */
  lemma UnitBytesOfPair(b0: Byte, b1: Byte)
    ensures UnitBytes([b0 / 4, (b0 % 4) * 16 + b1 / 16, (b1 % 16) * 4]) == [b0, b1]
  {
    Regroup(b0 % 4, b1 / 16, 16);
    Regroup(b1 % 16, 0, 4);
  }

  /** The first three characters of a unit hold its first two bytes,
      whatever the third byte is. */
  lemma UnitBytesOfTwo(b0: Byte, b1: Byte, b2: Byte)
    ensures UnitBytes([b0 / 4, (b0 % 4) * 16 + b1 / 16, (b1 % 16) * 4 + b2 / 64]) == [b0, b1]
  {
    Regroup(b0 % 4, b1 / 16, 16);
    Regroup(b1 % 16, b2 / 64, 4);
  }

  /** Dropping the last character of a longer encoding only affects its
      final unit. */
  lemma DecodeTruncatedStep(b: Bytes)
    requires |b| > 3
    ensures var e, e' := Encode(b), Encode(b[3..]);
            Decode(e[..|e| - 1]) ==
              match Decode(e'[..|e'| - 1]) {
                case None => None
                case Some(tail) => Some([b[0], b[1], b[2]] + tail)
              }
  {
    var e, e' := Encode(b), Encode(b[3..]);
    EncodeTruncatedStep(b);
    DecodeAfterQuad(b[0], b[1], b[2], e[..|e| - 1], e'[..|e'| - 1]);
  }

  /** Text that starts with a full unit decodes to that unit's bytes ahead
      of what the rest decodes to. */
  lemma DecodeAfterQuad(b0: Byte, b1: Byte, b2: Byte, t: string, rest: string)
    requires t == Quad(b0, b1, b2) + rest
    ensures Decode(t) ==
      match Decode(rest) {
        case None => None
        case Some(tail) => Some([b0, b1, b2] + tail)
      }
  {
    DecodeQuad(b0, b1, b2, rest);
  }

  /** A full unit decodes to its three bytes, ahead of whatever the rest
      decodes to. */
  lemma DecodeQuad(b0: Byte, b1: Byte, b2: Byte, rest: string)
    ensures DecodeFrom(Quad(b0, b1, b2) + rest, []) ==
      match DecodeFrom(rest, []) {
        case None => None
        case Some(tail) => Some([b0, b1, b2] + tail)
      }
  {
    DecodeFullUnit(Quad(b0, b1, b2), rest);
    QuadBytes(b0, b1, b2);
  }

  /** A longer encoding less its last character is its first unit followed
      by the rest's encoding less its last character. */
  lemma EncodeTruncatedStep(b: Bytes)
    requires |b| > 3
    ensures var e, e' := Encode(b), Encode(b[3..]);
            |e'| > 0 && e[..|e| - 1] == Quad(b[0], b[1], b[2]) + e'[..|e'| - 1]
  {
    var q := Quad(b[0], b[1], b[2]);
    var e' := Encode(b[3..]);
    assert Encode(b) == q + e';
    assert (q + e')[..|q + e'| - 1] == q + e'[..|e'| - 1];
  }

  /** What Java's decoder makes of an encoding whose last character is lost.
      With two bytes in the final unit the lost character is the single `=`
      of padding, and the unpadded rest still decodes to the same bytes. With
      one byte it is the second `=`, and the remaining `xx=` is rejected.
      With a full final unit it is a data character, and the last byte is
      lost with it. */
  lemma DecodeTruncated(b: Bytes)
    requires |b| > 0
    ensures var e := Encode(b);
            Decode(e[..|e| - 1]) ==
              if |b| % 3 == 1 then None
              else if |b| % 3 == 2 then Some(b)
              else Some(b[..|b| - 1])
  {
    DecodeTruncatedAll(b);
  }

  /** `DecodeTruncated`, by induction on the number of full units. */
  lemma {:induction false} DecodeTruncatedAll(b: Bytes)
    requires |b| > 0
    ensures var e := Encode(b); Decode(e[..|e| - 1]) == TruncatedDecoding(b)
    decreases |b|
  {
    if |b| <= 3 {
      DecodeTruncatedShort(b);
    } else {
      var tail := b[3..];
      DecodeTruncatedAll(tail);
      DecodeTruncatedStep(b);
      TruncatedDecodingStep(b);
    }
  }

  /** The decoding `DecodeTruncated` promises for a truncated encoding of `b`. */
  function TruncatedDecoding(b: Bytes): Option<Bytes>
    requires |b| > 0
  {
    if |b| % 3 == 1 then None
    else if |b| % 3 == 2 then Some(b)
    else Some(b[..|b| - 1])
  }

  /** The promised decoding of a longer input is that of its tail, after the
      first three bytes. */
  lemma TruncatedDecodingStep(b: Bytes)
    requires |b| > 3
    ensures TruncatedDecoding(b) ==
              match TruncatedDecoding(b[3..]) {
                case None => None
                case Some(tail) => Some([b[0], b[1], b[2]] + tail)
              }
  {
    assert |b[3..]| % 3 == |b| % 3;
    assert b == [b[0], b[1], b[2]] + b[3..];
    if |b| % 3 == 0 {
      assert b[..|b| - 1] == [b[0], b[1], b[2]] + b[3..][..|b[3..]| - 1];
    }
  }

  /** The truncated decoding of one, two or three bytes. */
  lemma DecodeTruncatedShort(b: Bytes)
    requires 1 <= |b| <= 3
    ensures var e := Encode(b); Decode(e[..|e| - 1]) == TruncatedDecoding(b)
  {
    if |b| == 1 {
      DecodeTruncatedOne(b);
    } else if |b| == 2 {
      DecodeTruncatedTwo(b);
    } else {
      DecodeTruncatedThree(b);
    }
  }
}
