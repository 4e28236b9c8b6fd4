/** The pluggable collaborators of the session codec: the signer, the
    optional cipher, the value serializer and Netty's query-string decoder.

    Their implementations are not part of this model. Each is a function
    field, and `None` stands for an exception it throws. What the codec
    relies on is stated as a `Lawful` predicate, which the round-trip lemmas
    take as a hypothesis. The registry passed to the value serializer is
    folded into its functions.
 */
module Collaborators {
  import opened Results
  import opened Utf8
  import opened Payload

  /** `Signer.sign`. Being a function, it is deterministic. */
  datatype Signer = Signer(sign: Bytes -> Option<Bytes>) {
    /** Every digest it produces is non-empty. */
    ghost predicate Lawful() {
      forall x :: sign(x).Some? ==> |sign(x).value| > 0
    }
  }

  /** `Crypto.encrypt` and `Crypto.decrypt`. */
  datatype Crypto = Crypto(encrypt: Bytes -> Option<Bytes>, decrypt: Bytes -> Option<Bytes>) {
    /** Decryption undoes encryption. */
    ghost predicate Lawful() {
      forall x :: encrypt(x).Some? ==> decrypt(encrypt(x).value) == Some(x)
    }
  }

  /** `ValueSerializer.serialize` and `ValueSerializer.deserialize`. */
  datatype ValueSerializer<!V> = ValueSerializer(serialize: V -> Option<Bytes>, deserialize: string -> Option<V>)

  /** A decoded (name, value) pair. */
  type Param = (string, string)

  /** Netty's decoder caps the number of parameters it returns at 1024. */
  const MaxParams: nat := 1024

  const SemicolonByte: Byte := 0x3B

  /** A value that the decoder does not cut: the decoder splits pairs at `&`
      and, in some Netty versions, at `;`. */
  predicate FormSafe(b: Bytes) {
    AmpersandByte !in b && SemicolonByte !in b
  }

  /** `new String(message, UTF_8)` followed by `QueryStringDecoder` without
      a path: `parse` yields the payload's (name, value) pairs in order, with
      names and values percent-decoded, and `component` is its decoding of
      one value. */
  datatype QueryDecoder = QueryDecoder(parse: Bytes -> Option<seq<Param>>, component: Bytes -> string) {

    /** The decoded pairs of a list of wire entries. */
    function Decoded(entries: seq<(string, Bytes)>): (r: seq<Param>)
      ensures |r| == |entries|
      ensures forall i :: 0 <= i < |r| ==> r[i] == (entries[i].0, component(entries[i].1))
    {
      seq(|entries|, i requires 0 <= i < |entries| => (entries[i].0, component(entries[i].1)))
    }

    /** The decoder inverts the codec's payload format: for at most
        `MaxParams` entries with non-empty keys and values it does not cut,
        it recovers each key and the decoding of each value, in order. An
        empty key does not survive (`=v` parses as the name `v`). */
    ghost predicate Lawful() {
      forall entries: seq<(string, Bytes)> {:trigger parse(Join(Wire(entries)))} ::
        && |entries| <= MaxParams
        && (forall i :: 0 <= i < |entries| ==> entries[i].0 != "" && FormSafe(entries[i].1))
        ==> parse(Join(Wire(entries))) == Some(Decoded(entries))
    }
  }

  /** The codec's configuration: `crypto` is `None` where the Java field is
      `null`. */
  datatype Service<!V(!new)> = Service(signer: Signer, crypto: Option<Crypto>, values: ValueSerializer<V>, query: QueryDecoder) {

    /** The collaborators' laws, and the value serializer's bytes survive
        the decoder: they are never cut, and the decoding of what it writes
        reads back as the value written. */
    ghost predicate Lawful() {
      && signer.Lawful()
      && (crypto.Some? ==> crypto.value.Lawful())
      && query.Lawful()
      && forall v :: values.serialize(v).Some? ==>
           && FormSafe(values.serialize(v).value)
           && values.deserialize(query.component(values.serialize(v).value)) == Some(v)
    }
  }
}
