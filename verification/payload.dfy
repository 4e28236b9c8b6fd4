/** The flat payload: `key=value&key=value...` as bytes.

    The serializer allocates an array of `4n - 1` buffers for `n` entries and
    fills it entry by entry with the key, `=`, the value and, unless the
    array is already full, `&`. The payload is the buffers read in order.
 */
module Payload {
  import opened Results
  import opened Utf8
  import FormEscaper

  const EqualsByte: Byte := 0x3D
  const AmpersandByte: Byte := 0x26

  /** `encode` of lines 117-120: the form-escaped key as UTF-8 bytes. The
      escaped key is ASCII, so there is one byte per escaped character, and
      none of them is `=` or `&`. */
  function EncodeKey(key: string): (r: Bytes)
    ensures |r| == |FormEscaper.Escape(key)| >= |key|
    ensures forall i :: 0 <= i < |r| ==> r[i] < 0x80 && r[i] != EqualsByte && r[i] != AmpersandByte
  {
    var escaped := FormEscaper.Escape(key);
    FormEscaper.EscapedIsAscii(key);
    FormEscaper.EscapedHasNoSeparators(key);
    Utf8.EncodeAscii(escaped);
    Utf8.Encode(escaped)
  }

  /** A key of unreserved characters goes on the wire as its character
      codes, one byte each. */
  lemma EncodeKeyUnreserved(key: string)
    requires forall i :: 0 <= i < |key| ==> FormEscaper.IsUnreserved(key[i])
    ensures |EncodeKey(key)| == |key|
    ensures forall i :: 0 <= i < |key| ==> EncodeKey(key)[i] == key[i] as int
  {
    FormEscaper.EscapeKeepsUnreserved(key);
    FormEscaper.EscapedIsAscii(key);
    Utf8.EncodeAscii(key);
  }

  /** A key with a space, `=` and `&` in it. */
  lemma EncodeKeyExample()
    ensures EncodeKey("a b=c&d") == [0x61, 0x2B, 0x62, 0x25, 0x33, 0x44, 0x63, 0x25, 0x32, 0x36, 0x64]
  {
    FormEscaper.EscapeExample();
    EncodeEscapedExample("a+b%3Dc%26d");
  }

  /** The escaped example key, as UTF-8 bytes. */
  lemma EncodeEscapedExample(e: string)
    requires e == "a+b%3Dc%26d"
    ensures Utf8.Encode(e) == [0x61, 0x2B, 0x62, 0x25, 0x33, 0x44, 0x63, 0x25, 0x32, 0x36, 0x64]
  {
    assert IsAscii(e);
    Utf8.EncodeAscii(e);
  }

  /** One entry on the wire: the escaped key's bytes, then the value
      serializer's bytes. */
  type Pair = (Bytes, Bytes)

  /** Session entries on the wire: each key escaped, each value the value
      serializer's bytes, unescaped. */
  function Wire(entries: seq<(string, Bytes)>): (r: seq<Pair>)
    ensures |r| == |entries|
  {
    seq(|entries|, i requires 0 <= i < |entries| => (EncodeKey(entries[i].0), entries[i].1))
  }

  /** The buffers read in order, as one byte sequence. */
  function Flatten(buffers: seq<Bytes>): Bytes {
    if |buffers| == 0 then [] else buffers[0] + Flatten(buffers[1..])
  }

  /** The reference form of the payload: each key, `=` and its value, with
      `&` between entries and none after the last. */
  function Join(pairs: seq<Pair>): Bytes {
    if |pairs| == 0 then []
    else if |pairs| == 1 then pairs[0].0 + [EqualsByte] + pairs[0].1
    else pairs[0].0 + [EqualsByte] + pairs[0].1 + [AmpersandByte] + Join(pairs[1..])
  }

  /** Which buffer slot `j` of the array holds. */
  function Slot(pairs: seq<Pair>, j: nat): Bytes
    requires j < 4 * |pairs| - 1
  {
    var p := pairs[j / 4];
    if j % 4 == 0 then p.0
    else if j % 4 == 1 then [EqualsByte]
    else if j % 4 == 2 then p.1
    else [AmpersandByte]
  }

  /** All `4n - 1` slots, for a non-empty entry list. */
  function Slots(pairs: seq<Pair>): (r: seq<Bytes>)
    requires |pairs| > 0
    ensures |r| == 4 * |pairs| - 1
    ensures forall j :: 0 <= j < |r| ==> r[j] == Slot(pairs, j)
  {
    seq(4 * |pairs| - 1, j requires 0 <= j < 4 * |pairs| - 1 => Slot(pairs, j))
  }

  /** The filling loop of the serializer. An empty entry list asks for an
      array of length -1, which Java refuses; otherwise every slot is filled
      and no `&` follows the last value. */
  method FillBuffers(pairs: seq<Pair>) returns (r: Result<seq<Bytes>>)
    ensures |pairs| == 0 ==> r == Err(NegativeArraySize)
    ensures |pairs| > 0 ==> r.Ok? && |r.value| == 4 * |pairs| - 1
    ensures |pairs| > 0 ==> forall j :: 0 <= j < 4 * |pairs| - 1 ==> r.value[j] == Slot(pairs, j)
  {
    var n := |pairs|;
    var size := 3 * n + n - 1;
    if size < 0 {
      return Err(NegativeArraySize);
    }
    var buffers: seq<Option<Bytes>> := seq(size, _ => None);
    var i := 0;
    var k := 0;
    while k < n
      invariant 0 <= k <= n
      invariant i == if k < n then 4 * k else 4 * n - 1
      invariant |buffers| == size
      invariant forall j :: 0 <= j < i ==> buffers[j] == Some(Slot(pairs, j))
      invariant forall j :: i <= j < size ==> buffers[j] == None
    {
      buffers := buffers[i := Some(pairs[k].0)];
      i := i + 1;
      buffers := buffers[i := Some([EqualsByte])];
      i := i + 1;
      buffers := buffers[i := Some(pairs[k].1)];
      i := i + 1;
      if i < size {
        buffers := buffers[i := Some([AmpersandByte])];
        i := i + 1;
      }
      k := k + 1;
    }
    var filled := seq(size, j requires 0 <= j < size => buffers[j].value);
    return Ok(filled);
  }

  lemma {:induction false} FlattenAppend(a: seq<Bytes>, b: seq<Bytes>)
    ensures Flatten(a + b) == Flatten(a) + Flatten(b)
  {
    if |a| == 0 {
      assert a + b == b;
    } else {
      assert (a + b)[0] == a[0];
      assert (a + b)[1..] == a[1..] + b;
      FlattenAppend(a[1..], b);
    }
  }

  /** Reading the filled buffers in order gives the reference payload. */
  lemma {:induction false} SlotsJoin(pairs: seq<Pair>)
    requires |pairs| > 0
    ensures Flatten(Slots(pairs)) == Join(pairs)
  {
    var p := pairs[0];
    var head: seq<Bytes> := [p.0, [EqualsByte], p.1];
    assert Flatten(head) == p.0 + [EqualsByte] + p.1 by {
      assert head[1..] == [[EqualsByte], p.1];
      assert head[1..][1..] == [p.1];
      assert head[1..][1..][1..] == [];
      assert Flatten([p.1]) == p.1 + [];
    }
    if |pairs| == 1 {
      assert Slots(pairs) == head;
    } else {
      var rest := pairs[1..];
      var amp: seq<Bytes> := [[AmpersandByte]];
      assert Slots(pairs) == head + amp + Slots(rest) by {
        forall j | 0 <= j < |Slots(pairs)|
          ensures Slots(pairs)[j] == (head + amp + Slots(rest))[j]
        {
          if j >= 4 {
            assert (j - 4) / 4 == j / 4 - 1 && (j - 4) % 4 == j % 4;
            assert Slot(pairs, j) == Slot(rest, j - 4);
          }
        }
      }
      SlotsJoin(rest);
      FlattenAppend(head + amp, Slots(rest));
      FlattenAppend(head, amp);
      assert Flatten(amp) == [AmpersandByte];
    }
  }
}
