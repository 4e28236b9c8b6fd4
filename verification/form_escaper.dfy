/** Guava's `UrlEscapers.urlFormParameterEscaper()`.

    It follows application/x-www-form-urlencoded rules: letters, digits and
    `-_.*` stay as they are; a space becomes `+`; every other character
    becomes `%XX` for each byte of its UTF-8 encoding, with upper-case
    hexadecimal digits.
 */
module FormEscaper {
  import opened Utf8

  /** A character the escaper leaves unchanged. */
  predicate IsUnreserved(c: char) {
    ('a' <= c <= 'z') || ('A' <= c <= 'Z') || ('0' <= c <= '9')
    || c == '-' || c == '_' || c == '.' || c == '*'
  }

  /** A character that can appear in escaper output. */
  predicate IsEscapedChar(c: char) {
    IsUnreserved(c) || c == '+' || c == '%'
  }

  const HexDigits: string := "0123456789ABCDEF"

  /** `%XX` for each byte, most significant hex digit first. */
  function PercentEncode(bs: Bytes): (r: string)
    ensures |r| == 3 * |bs|
    ensures forall i :: 0 <= i < |r| ==> IsEscapedChar(r[i])
  {
    if |bs| == 0 then []
    else ['%', HexDigits[bs[0] / 16], HexDigits[bs[0] % 16]] + PercentEncode(bs[1..])
  }

  /** The escape of one character. */
  function EscapeChar(c: char): (r: string)
    ensures |r| > 0
    ensures forall i :: 0 <= i < |r| ==> IsEscapedChar(r[i])
  {
    if IsUnreserved(c) then [c]
    else if c == ' ' then "+"
    else PercentEncode(Utf8.EncodeChar(c))
  }

  /** The escape of a string: its characters' escapes, in order. */
  function Escape(s: string): (r: string)
    ensures |r| >= |s|
    ensures forall i :: 0 <= i < |r| ==> IsEscapedChar(r[i])
  {
    if |s| == 0 then [] else EscapeChar(s[0]) + Escape(s[1..])
  }

  /** Escaped text holds none of the separators of the session wire format. */
  lemma EscapedHasNoSeparators(s: string)
    ensures forall i :: 0 <= i < |Escape(s)| ==>
              Escape(s)[i] != '=' && Escape(s)[i] != '&' && Escape(s)[i] != ':'
  {
  }

  /** Escaped text is ASCII, so its UTF-8 encoding is one byte per character. */
  lemma EscapedIsAscii(s: string)
    ensures IsAscii(Escape(s))
  {
  }

  /** Text made only of unreserved characters is left unchanged. */
  lemma {:induction false} EscapeKeepsUnreserved(s: string)
    requires forall i :: 0 <= i < |s| ==> IsUnreserved(s[i])
    ensures Escape(s) == s
  {
    if |s| > 0 {
      EscapeKeepsUnreserved(s[1..]);
      assert s == [s[0]] + s[1..];
    }
  }

  /** Escaping works character by character, so it distributes over
      concatenation. */
  lemma {:induction false} EscapeAppend(a: string, b: string)
    ensures Escape(a + b) == Escape(a) + Escape(b)
  {
    if |a| == 0 {
      assert a + b == b;
    } else {
      assert (a + b)[1..] == a[1..] + b;
      EscapeAppend(a[1..], b);
    }
  }

  /** A worked example: space, `=` and `&` in a key. */
  lemma EscapeExample()
    ensures Escape("a b=c&d") == "a+b%3Dc%26d"
  {
    EscapeHead();
    EscapeTail();
    EscapeAppend("a b=", "c&d");
    assert "a b=" + "c&d" == "a b=c&d";
    assert "a+b%3D" + "c%26d" == "a+b%3Dc%26d";
  }

  lemma EscapeHead()
    ensures Escape("a b=") == "a+b%3D"
  {
    EscapePercent('=', 0x3D, "%3D");
    assert Escape("=") == "%3D";
  }

  lemma EscapeTail()
    ensures Escape("c&d") == "c%26d"
  {
    EscapePercent('&', 0x26, "%26");
    assert Escape("&d") == "%26d";
  }

  /** A reserved ASCII character becomes `%` and its code in hexadecimal. */
  lemma EscapePercent(c: char, b: Byte, r: string)
    requires c as int == b as int && b < 0x80 && !IsUnreserved(c) && c != ' '
    requires r == ['%', HexDigits[b / 16], HexDigits[b % 16]]
    ensures EscapeChar(c) == r
  {
    assert Utf8.EncodeChar(c) == [b];
  }
}
