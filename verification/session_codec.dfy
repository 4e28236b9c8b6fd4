/** The client-side session codec of `DefaultClientSessionService`.

    Serializing turns the session entries into the flat payload
    `key=value&key=value...`, optionally encrypts it, and wraps the result
    `S` in the envelope `base64url(S) ":" base64url(sign(S))`. The envelope
    may then be cut into cookie-sized partitions. Deserializing joins the
    cookie values in order, splits the envelope at `:`, checks the
    signature, optionally decrypts, parses the payload and deserializes the
    first value of each key. A signature that does not match is not an
    error: the session comes back empty.

    The session entries are a sequence in the set's iteration order. The
    returned session is an immutable map.
 */
module SessionCodec {
  import opened Results
  import opened Utf8
  import Base64Url
  import JavaSplit
  import opened Payload
  import Chunking
  import opened QueryParameters
  import opened Collaborators

  /** Line 84 for every entry in iteration order: each value becomes the
      serializer's bytes, and the first value it refuses stops the loop. */
  function SerializeValues<V>(vs: ValueSerializer<V>, entries: seq<(string, V)>): (r: Result<seq<(string, Bytes)>>)
    ensures r.Ok? <==> forall i :: 0 <= i < |entries| ==> vs.serialize(entries[i].1).Some?
    ensures r.Err? ==> r.error == Unchecked(ValueSerializerFailed)
    ensures r.Ok? ==> |r.value| == |entries|
    ensures r.Ok? ==> forall i :: 0 <= i < |entries| ==>
                        r.value[i] == (entries[i].0, vs.serialize(entries[i].1).value)
  {
    if |entries| == 0 then Ok([])
    else
      match vs.serialize(entries[0].1)
      case None => Err(Unchecked(ValueSerializerFailed))
      case Some(b) =>
        match SerializeValues(vs, entries[1..])
        case Err(e) => Err(e)
        case Ok(rest) => Ok([(entries[0].0, b)] + rest)
  }

  /** Lines 77-91: the flat payload, read from the `4n - 1` buffers. The
      array is sized before any value is serialized, so an empty entry set
      fails there. Otherwise the payload is `key=value` for every entry, in
      iteration order, joined by `&`, and it fails only when a value does not
      serialize. */
  function Assemble<V>(vs: ValueSerializer<V>, entries: seq<(string, V)>): (r: Result<Bytes>)
    ensures r.Ok? <==> |entries| > 0 && SerializeValues(vs, entries).Ok?
    ensures |entries| == 0 ==> r == Err(NegativeArraySize)
    ensures |entries| > 0 && r.Err? ==> r.error == Unchecked(ValueSerializerFailed)
    ensures r.Ok? ==> r.value == Join(Wire(SerializeValues(vs, entries).value))
  {
    var n := |entries|;
    var size := 3 * n + n - 1;
    if size < 0 then Err(NegativeArraySize)
    else
      var pairs :- SerializeValues(vs, entries);
      SlotsJoin(Wire(pairs));
      Ok(Flatten(Slots(Wire(pairs))))
  }

  /** The payload with line 77 sized so that an empty entry set is allowed:
      it gives an empty payload, which lines 136-157 accept as an empty
      session once signed. */
  function AssembleFixed<V>(vs: ValueSerializer<V>, entries: seq<(string, V)>): (r: Result<Bytes>)
    ensures |entries| == 0 ==> r == Ok([])
  {
    var pairs :- SerializeValues(vs, entries);
    Ok(Join(Wire(pairs)))
  }

  /** For a non-empty entry set, the buffers read in order are `key=value`
      for every entry, in iteration order, separated by `&` with none after
      the last: the keys escaped, the values the serializer's bytes. */
  lemma AssemblePayload<V>(vs: ValueSerializer<V>, entries: seq<(string, V)>)
    requires |entries| > 0
    ensures Assemble(vs, entries) == AssembleFixed(vs, entries)
    ensures Assemble(vs, entries).Ok? ==>
              Assemble(vs, entries).value == Join(Wire(SerializeValues(vs, entries).value))
  {
    var r := SerializeValues(vs, entries);
    if r.Ok? {
      SlotsJoin(Wire(r.value));
    }
  }

  /** The payload of two entries, spelled out. */
  lemma AssembleExample<V>(vs: ValueSerializer<V>, v1: V, v2: V)
    requires vs.serialize(v1) == Some([0x31]) && vs.serialize(v2) == Some([0x32])
    ensures Assemble(vs, [("a", v1), ("b c", v2)]) == Ok([0x61, 0x3D, 0x31, 0x26, 0x62, 0x2B, 0x63, 0x3D, 0x32])
  {
    var entries := [("a", v1), ("b c", v2)];
    AssemblePayload(vs, entries);
    var pairs := SerializeValues(vs, entries).value;
    assert pairs == [("a", [0x31]), ("b c", [0x32])];
    WireExample(pairs);
  }

  /** The two example entries on the wire, joined. */
  lemma WireExample(pairs: seq<(string, Bytes)>)
    requires pairs == [("a", [0x31]), ("b c", [0x32])]
    ensures Join(Wire(pairs)) == [0x61, 0x3D, 0x31, 0x26, 0x62, 0x2B, 0x63, 0x3D, 0x32]
  {
    assert EncodeKey("a") == [0x61] by {
      EncodeKeyUnreserved("a");
    }
    assert EncodeKey("b c") == [0x62, 0x2B, 0x63] by {
      assert FormEscaper.Escape("b c") == "b+c";
      FormEscaper.EscapedIsAscii("b c");
      Utf8.EncodeAscii("b+c");
    }
    JoinExample(Wire(pairs));
  }

  /** Two wire pairs joined: `=` inside each, `&` between them. */
  lemma JoinExample(wire: seq<Pair>)
    requires wire == [([0x61], [0x31]), ([0x62, 0x2B, 0x63], [0x32])]
    ensures Join(wire) == [0x61, 0x3D, 0x31, 0x26, 0x62, 0x2B, 0x63, 0x3D, 0x32]
  {
    assert wire[1..] == [([0x62, 0x2B, 0x63], [0x32])];
    assert Join(wire[1..]) == [0x62, 0x2B, 0x63] + [EqualsByte] + [0x32];
  }

  /** Lines 94-97: the bytes that are signed and sent, the encrypted payload
      when a cipher is configured. */
  function Signable(crypto: Option<Crypto>, payload: Bytes): (r: Result<Bytes>)
    ensures crypto.None? ==> r == Ok(payload)
    ensures crypto.Some? ==> (r.Ok? <==> crypto.value.encrypt(payload).Some?)
    ensures crypto.Some? && r.Ok? ==> crypto.value.encrypt(payload) == Some(r.value)
    ensures r.Err? ==> r.error == Unchecked(CryptoFailed)
  {
    match crypto
    case None => Ok(payload)
    case Some(c) =>
      match c.encrypt(payload)
      case None => Err(Unchecked(CryptoFailed))
      case Some(x) => Ok(x)
  }

  /** Lines 94-104: the envelope. A string past `Integer.MAX_VALUE`
      characters cannot be built. */
  function Seal<V(!new)>(svc: Service<V>, payload: Bytes): (r: Result<string>)
    ensures r.Ok? ==> Signable(svc.crypto, payload).Ok?
    ensures r.Ok? ==> svc.signer.sign(Signable(svc.crypto, payload).value).Some?
    ensures r.Ok? ==> |r.value| <= Chunking.MaxInt
    ensures Signable(svc.crypto, payload).Err? ==> r == Err(Unchecked(CryptoFailed))
  {
    var signed :- Signable(svc.crypto, payload);
    var payloadString := Base64Url.Encode(signed);
    if |payloadString| > Chunking.MaxInt then Err(StringTooLong)
    else
      match svc.signer.sign(signed)
      case None => Err(Unchecked(SignerFailed))
      case Some(digest) =>
        var envelope := payloadString + ":" + Base64Url.Encode(digest);
        if |envelope| > Chunking.MaxInt then Err(StringTooLong) else Ok(envelope)
  }

  /** The envelope is exactly two `:`-separated parts, the encodings of `S`
      and of its digest; the signature covers `S`, which is the ciphertext
      when a cipher is configured and the plain payload otherwise. */
  lemma SealShape<V(!new)>(svc: Service<V>, payload: Bytes)
    requires svc.signer.Lawful()
    requires Seal(svc, payload).Ok?
    ensures var signed := Signable(svc.crypto, payload).value;
            var digest := svc.signer.sign(signed).value;
            JavaSplit.Split(Seal(svc, payload).value, ':') == [Base64Url.Encode(signed), Base64Url.Encode(digest)]
    ensures svc.crypto.None? ==> Signable(svc.crypto, payload).value == payload
    ensures svc.crypto.Some? ==> svc.crypto.value.encrypt(payload) == Some(Signable(svc.crypto, payload).value)
  {
    var signed := Signable(svc.crypto, payload).value;
    var digest := svc.signer.sign(signed).value;
    var a, b := Base64Url.Encode(signed), Base64Url.Encode(digest);
    Base64Url.EncodeHasNoColon(signed);
    Base64Url.EncodeHasNoColon(digest);
    assert |b| > 0;
    assert Seal(svc, payload).value == a + [':'] + b;
    JavaSplit.SplitPair(a, b, ':');
  }

  /** The check of lines 136-144 passes: the cookie value is two parts,
      both decode, and the second is the signer's digest of the first. */
  ghost predicate SignatureMatches<V(!new)>(svc: Service<V>, s: string) {
    var parts := JavaSplit.Split(s, ':');
    && |parts| == 2
    && Base64Url.Decode(parts[0]).Some? && Base64Url.Decode(parts[1]).Some?
    && svc.signer.sign(Base64Url.Decode(parts[0]).value) == Base64Url.Decode(parts[1])
  }

  /** Lines 136-151: the plaintext payload of an envelope, or `None` for an
      envelope that is not two parts or whose digest does not match. The
      base64 decoding of lines 138-139 is outside the `try`, so its error
      escapes unwrapped. */
  function Unseal<V(!new)>(svc: Service<V>, s: string): (r: Result<Option<Bytes>>)
    ensures |JavaSplit.Split(s, ':')| != 2 ==> r == Ok(None)
    ensures r.Ok? && r.value.Some? ==> SignatureMatches(svc, s)
  {
    var parts := JavaSplit.Split(s, ':');
    if |parts| != 2 then Ok(None)
    else
      match Base64Url.Decode(parts[0])
      case None => Err(IllegalBase64)
      case Some(signed) =>
        match Base64Url.Decode(parts[1])
        case None => Err(IllegalBase64)
        case Some(digest) =>
          match svc.signer.sign(signed)
          case None => Err(Unchecked(SignerFailed))
          case Some(expected) =>
            if digest != expected then Ok(None)
            else
              match svc.crypto
              case None => Ok(Some(signed))
              case Some(c) =>
                match c.decrypt(signed)
                case None => Err(Unchecked(CryptoFailed))
                case Some(message) => Ok(Some(message))
  }

  /** An envelope built by `Seal` passes the signature check, and the
      decrypted bytes are the original payload. */
  lemma SealOpens<V(!new)>(svc: Service<V>, payload: Bytes)
    requires svc.signer.Lawful() && (svc.crypto.Some? ==> svc.crypto.value.Lawful())
    requires Seal(svc, payload).Ok?
    ensures Unseal(svc, Seal(svc, payload).value) == Ok(Some(payload))
  {
    var signed := Signable(svc.crypto, payload).value;
    var digest := svc.signer.sign(signed).value;
    SealShape(svc, payload);
    Base64Url.DecodeEncode(signed);
    Base64Url.DecodeEncode(digest);
  }

  /** `SealOpens` for any service: with lawful signer and cipher, an envelope
      that was built unseals to its payload. */
  lemma SealOpensIfLawful<V(!new)>(svc: Service<V>, payload: Bytes)
    ensures Seal(svc, payload).Ok? && svc.signer.Lawful() && (svc.crypto.Some? ==> svc.crypto.value.Lawful()) ==>
              Unseal(svc, Seal(svc, payload).value) == Ok(Some(payload))
  {
    if Seal(svc, payload).Ok? && svc.signer.Lawful() && (svc.crypto.Some? ==> svc.crypto.value.Lawful()) {
      SealOpens(svc, payload);
    }
  }

  /** The session that line 156 builds from each key's first value, as one
      map: the reference for the loop. */
  function DeserializeValues<V>(vs: ValueSerializer<V>, texts: map<string, string>): (r: Result<map<string, V>>)
    ensures r.Ok? <==> forall k :: k in texts ==> vs.deserialize(texts[k]).Some?
    ensures r.Err? ==> r.error == Unchecked(ValueSerializerFailed)
    ensures r.Ok? ==> r.value.Keys == texts.Keys
    ensures r.Ok? ==> forall k :: k in texts ==> vs.deserialize(texts[k]) == Some(r.value[k])
  {
    if forall k :: k in texts ==> vs.deserialize(texts[k]).Some? then
      Ok(map k | k in texts :: vs.deserialize(texts[k]).value)
    else
      Err(Unchecked(ValueSerializerFailed))
  }

  /** Lines 155-157 over the entries left: each key is put into `session`
      with its first value deserialized, and the first value the serializer
      refuses stops the loop. */
  function DeserializeInto<V>(vs: ValueSerializer<V>, entries: seq<(string, seq<string>)>, session: map<string, V>): (r: Result<map<string, V>>)
    requires forall i :: 0 <= i < |entries| ==> |entries[i].1| > 0
    ensures r.Ok? <==> forall i :: 0 <= i < |entries| ==> vs.deserialize(entries[i].1[0]).Some?
    ensures r.Err? ==> r.error == Unchecked(ValueSerializerFailed)
    ensures r.Ok? ==> r.value.Keys == session.Keys + Names(entries)
    ensures r.Ok? ==> forall k :: k in session && k !in Names(entries) ==> r.value[k] == session[k]
    decreases |entries|
  {
    if |entries| == 0 then Ok(session)
    else
      match vs.deserialize(entries[0].1[0])
      case None => Err(Unchecked(ValueSerializerFailed))
      case Some(v) =>
        NamesCons(entries);
        var r := DeserializeInto(vs, entries[1..], session[entries[0].0 := v]);
        assert r.Ok? ==> forall i :: 1 <= i < |entries| ==> entries[1..][i - 1] == entries[i];
        r
  }

  /** With distinct keys, the loop leaves each key holding the
      deserialization of its own first value. */
  lemma {:induction false} DeserializeIntoValues<V>(vs: ValueSerializer<V>, entries: seq<(string, seq<string>)>, session: map<string, V>)
    requires forall i :: 0 <= i < |entries| ==> |entries[i].1| > 0
    requires forall i, j :: 0 <= i < j < |entries| ==> entries[i].0 != entries[j].0
    ensures DeserializeInto(vs, entries, session).Ok? ==>
              forall i :: 0 <= i < |entries| ==>
                vs.deserialize(entries[i].1[0]) == Some(DeserializeInto(vs, entries, session).value[entries[i].0])
    decreases |entries|
  {
    var r := DeserializeInto(vs, entries, session);
    if |entries| > 0 && r.Ok? {
      var v := vs.deserialize(entries[0].1[0]).value;
      var tail := entries[1..];
      var next := session[entries[0].0 := v];
      assert r == DeserializeInto(vs, tail, next);
      forall i | 1 <= i < |entries| ensures tail[i - 1] == entries[i] { }
      DeserializeIntoValues(vs, tail, next);
      assert entries[0].0 !in Names(tail) by {
        forall k | 0 <= k < |tail| ensures tail[k].0 != entries[0].0 {
          assert tail[k] == entries[k + 1];
        }
      }
    }
  }

  /** The loop over entries with distinct keys builds the reference map of
      their first values. */
  lemma DeserializeIntoMatches<V>(vs: ValueSerializer<V>, entries: seq<(string, seq<string>)>, texts: map<string, string>)
    requires forall i :: 0 <= i < |entries| ==> |entries[i].1| > 0 && entries[i].0 in texts && entries[i].1[0] == texts[entries[i].0]
    requires forall i, j :: 0 <= i < j < |entries| ==> entries[i].0 != entries[j].0
    requires Names(entries) == texts.Keys
    ensures DeserializeInto(vs, entries, map[]) == DeserializeValues(vs, texts)
  {
    var r, d := DeserializeInto(vs, entries, map[]), DeserializeValues(vs, texts);
    assert r.Ok? <==> d.Ok? by {
      if d.Ok? {
        forall i | 0 <= i < |entries| ensures vs.deserialize(entries[i].1[0]).Some? {
          assert entries[i].0 in Names(entries);
        }
      }
      if r.Ok? {
        forall k | k in texts ensures vs.deserialize(texts[k]).Some? {
          var i :| 0 <= i < |entries| && entries[i].0 == k;
        }
      }
    }
    if r.Ok? {
      DeserializeIntoValues(vs, entries, map[]);
      forall k | k in texts ensures r.value[k] == d.value[k] {
        var i :| 0 <= i < |entries| && entries[i].0 == k;
        assert vs.deserialize(texts[k]) == Some(r.value[k]);
      }
      assert r.value == d.value;
    }
  }

  /** Lines 152-157: parse the plaintext payload and put each key with its
      first value deserialized. The session has exactly the payload's keys,
      each holding the deserialization of that key's first value. */
  function Read<V(!new)>(svc: Service<V>, message: Bytes): (r: Result<map<string, V>>)
    ensures svc.query.parse(message).None? ==> r == Err(Unchecked(QueryDecoderFailed))
    ensures svc.query.parse(message).Some? ==>
              var first := FirstMap(svc.query.parse(message).value);
              && (r.Ok? <==> forall k :: k in first ==> svc.values.deserialize(first[k]).Some?)
              && (r.Err? ==> r.error == Unchecked(ValueSerializerFailed))
              && (r.Ok? ==> r.value.Keys == first.Keys)
              && (r.Ok? ==> forall k :: k in first ==> svc.values.deserialize(first[k]) == Some(r.value[k]))
  {
    match svc.query.parse(message)
    case None => Err(Unchecked(QueryDecoderFailed))
    case Some(params) =>
      var entries := ParameterEntries(params);
      ParameterEntriesFirst(params);
      DeserializeIntoMatches(svc.values, entries, FirstMap(params));
      DeserializeInto(svc.values, entries, map[])
  }

  /** Lines 132-166: the session held by one cookie value. */
  function Restore<V(!new)>(svc: Service<V>, cookieValue: string): (r: Result<map<string, V>>)
    ensures |JavaSplit.Split(cookieValue, ':')| != 2 ==> r == Ok(map[])
    ensures r.Ok? && r.value != map[] ==> SignatureMatches(svc, cookieValue)
  {
    var message :- Unseal(svc, cookieValue);
    match message
    case None => Ok(map[])
    case Some(m) => Read(svc, m)
  }

  /** Lines 123-130: the session held by the cookies, joined in the order
      given. */
  function RestoreCookies<V(!new)>(svc: Service<V>, cookies: seq<string>): (r: Result<map<string, V>>)
    ensures |cookies| == 0 ==> r == Ok(map[])
    ensures |cookies| == 1 ==> r == Restore(svc, cookies[0])
    ensures r.Ok? && r.value != map[] ==> SignatureMatches(svc, Chunking.Concat(cookies))
  {
    var joined := Chunking.Concat(cookies);
    JavaSplit.SplitEmpty();
    if |cookies| == 1 then
      Chunking.ConcatOne(cookies);
      Restore(svc, joined)
    else
      Restore(svc, joined)
  }

  /** Lines 59-115 as written: the envelope, or the error it fails with. */
  function Serialize<V(!new)>(svc: Service<V>, entries: seq<(string, V)>): (r: Result<string>)
    ensures |entries| == 0 ==> r == Err(NegativeArraySize)
    ensures |entries| > 0 && r.Err? ==>
              r.error in {Unchecked(ValueSerializerFailed), Unchecked(CryptoFailed), Unchecked(SignerFailed), StringTooLong}
    ensures r.Ok? ==> Assemble(svc.values, entries).Ok? && |r.value| <= Chunking.MaxInt
    ensures r.Ok? && svc.signer.Lawful() && (svc.crypto.Some? ==> svc.crypto.value.Lawful()) ==>
              Unseal(svc, r.value) == Ok(Some(Assemble(svc.values, entries).value))
  {
    var payload :- Assemble(svc.values, entries);
    SealOpensIfLawful(svc, payload);
    Seal(svc, payload)
  }

  /** The serializer with line 77 sized so that n = 0 is allowed: an empty
      entry set is sealed as an empty payload. */
  function SerializeFixed<V(!new)>(svc: Service<V>, entries: seq<(string, V)>): (r: Result<string>)
    ensures |entries| == 0 ==> r == Seal(svc, [])
    ensures r.Ok? ==> AssembleFixed(svc.values, entries).Ok? && |r.value| <= Chunking.MaxInt
    ensures r.Ok? && svc.signer.Lawful() && (svc.crypto.Some? ==> svc.crypto.value.Lawful()) ==>
              Unseal(svc, r.value) == Ok(Some(AssembleFixed(svc.values, entries).value))
  {
    var payload :- AssembleFixed(svc.values, entries);
    SealOpensIfLawful(svc, payload);
    Seal(svc, payload)
  }

  /** The line-77 defect: an empty entry set throws before anything is
      signed, while the corrected serializer seals it. */
  lemma SerializeEmptyFails<V(!new)>(svc: Service<V>)
    ensures Serialize(svc, []) == Err(NegativeArraySize)
    ensures SerializeFixed(svc, []) == Seal(svc, [])
  {
  }

  /** For a non-empty entry set both serializers agree. */
  lemma SerializeMatchesFixed<V(!new)>(svc: Service<V>, entries: seq<(string, V)>)
    requires |entries| > 0
    ensures Serialize(svc, entries) == SerializeFixed(svc, entries)
  {
    AssemblePayload(svc.values, entries);
  }

  /** The entries the round trip is promised for: the decoder's limit on
      the number of parameters, and no empty key. */
  predicate Restorable<V>(entries: seq<(string, V)>) {
    |entries| <= MaxParams && forall i :: 0 <= i < |entries| ==> entries[i].0 != ""
  }

  /** Reading a payload assembled from values the serializer accepted gives
      back each key with the value of its first entry. */
  lemma ReadAssembled<V(!new)>(svc: Service<V>, entries: seq<(string, V)>)
    requires svc.Lawful() && Restorable(entries)
    requires AssembleFixed(svc.values, entries).Ok?
    ensures Read(svc, AssembleFixed(svc.values, entries).value) == Ok(FirstMap(entries))
  {
    var pairs := SerializeValues(svc.values, entries).value;
    forall i | 0 <= i < |pairs|
      ensures pairs[i].0 != "" && FormSafe(pairs[i].1)
    {
      assert pairs[i] == (entries[i].0, svc.values.serialize(entries[i].1).value);
    }
    var params := svc.query.Decoded(pairs);
    assert svc.query.parse(Join(Wire(pairs))) == Some(params);
    var rel := (t: string, v: V) => svc.values.deserialize(t) == Some(v);
    forall i | 0 <= i < |params|
      ensures entries[i].0 == params[i].0 && rel(params[i].1, entries[i].1)
    {
      assert params[i] == (pairs[i].0, svc.query.component(pairs[i].1));
    }
    FirstMapRelated(params, entries, rel);
    var texts, firsts := FirstMap(params), FirstMap(entries);
    forall k | k in texts ensures svc.values.deserialize(texts[k]) == Some(firsts[k]) {
      assert rel(texts[k], firsts[k]);
    }
    ReadDecoded(svc, Join(Wire(pairs)), params, firsts);
  }

  /** A payload whose parameters' first values each deserialize to the
      value a map gives their name reads as that map. */
  lemma ReadDecoded<V(!new)>(svc: Service<V>, message: Bytes, params: seq<(string, string)>, m: map<string, V>)
    requires svc.query.parse(message) == Some(params)
    requires FirstMap(params).Keys == m.Keys
    requires forall k :: k in FirstMap(params) ==> svc.values.deserialize(FirstMap(params)[k]) == Some(m[k])
    ensures Read(svc, message) == Ok(m)
  {
    var r := Read(svc, message);
    assert r.Ok?;
    forall k | k in m ensures r.value[k] == m[k] {
      assert svc.values.deserialize(FirstMap(params)[k]) == Some(r.value[k]);
    }
    assert r.value == m;
  }

  /** The session round trip: deserializing an envelope that the corrected
      serializer built gives back the entries, each key with its value (the
      first one, should a key repeat). */
  lemma RestoreSerialized<V(!new)>(svc: Service<V>, entries: seq<(string, V)>)
    requires svc.Lawful() && Restorable(entries)
    requires SerializeFixed(svc, entries).Ok?
    ensures Restore(svc, SerializeFixed(svc, entries).value) == Ok(FirstMap(entries))
  {
    var payload := AssembleFixed(svc.values, entries).value;
    SealOpens(svc, payload);
    ReadAssembled(svc, entries);
  }

  /** Two entries with different keys come back as they went in. */
  lemma RestoreExample<V(!new)>(svc: Service<V>, entries: seq<(string, V)>, alice: V, admin: V)
    requires svc.Lawful()
    requires entries == [("user", alice), ("role", admin)]
    requires Serialize(svc, entries).Ok?
    ensures Restore(svc, Serialize(svc, entries).value) == Ok(map["user" := alice, "role" := admin])
  {
    RestoreSerializedAsWritten(svc, entries);
    FirstMapPair(entries, "user", alice, "role", admin);
  }

  /** The as-written serializer round-trips every entry set it accepts, and
      an empty one it rejects. */
  lemma RestoreSerializedAsWritten<V(!new)>(svc: Service<V>, entries: seq<(string, V)>)
    requires svc.Lawful() && Restorable(entries)
    requires Serialize(svc, entries).Ok?
    ensures |entries| > 0
    ensures Restore(svc, Serialize(svc, entries).value) == Ok(FirstMap(entries))
  {
    SerializeMatchesFixed(svc, entries);
    RestoreSerialized(svc, entries);
  }

  /** A digest that does not match the recomputed one yields an empty
      session, whatever the value serializer and the decoder are: neither is
      consulted. */
  lemma RestoreRejectsForgery<V(!new)>(svc: Service<V>, s: string, values: ValueSerializer<V>, query: QueryDecoder)
    requires |JavaSplit.Split(s, ':')| == 2
    requires var parts := JavaSplit.Split(s, ':');
             && Base64Url.Decode(parts[0]).Some? && Base64Url.Decode(parts[1]).Some?
             && svc.signer.sign(Base64Url.Decode(parts[0]).value).Some?
             && svc.signer.sign(Base64Url.Decode(parts[0]).value) != Base64Url.Decode(parts[1])
    ensures Restore(svc, s) == Ok(map[])
    ensures Restore(svc.(values := values, query := query), s) == Ok(map[])
  {
  }

  /** A cookie value that does not split into exactly two parts, the empty
      one included, yields an empty session. */
  lemma RestoreNeedsTwoParts<V(!new)>(svc: Service<V>, s: string)
    ensures |JavaSplit.Split(s, ':')| != 2 ==> Restore(svc, s) == Ok(map[])
    ensures Restore(svc, "") == Ok(map[])
    ensures RestoreCookies(svc, []) == Ok(map[])
    ensures Restore(svc, "abc::") == Ok(map[])
  {
    JavaSplit.SplitEmpty();
    JavaSplit.SplitTrailingSeparators();
  }

  /** Lines 59-73 as written: an envelope no longer than `max` is one
      cookie; a longer one, when no `int` wraps, is cut into partitions that
      glue back to the envelope less its last character. */
  function SerializeChunked<V(!new)>(svc: Service<V>, entries: seq<(string, V)>, max: int): (r: Result<seq<string>>)
    requires Chunking.IsInt(max)
    ensures Serialize(svc, entries).Err? ==> r == Err(Serialize(svc, entries).error)
    ensures Serialize(svc, entries).Ok? && |Serialize(svc, entries).value| <= max ==>
              r == Ok([Serialize(svc, entries).value])
    ensures Serialize(svc, entries).Ok? && Chunking.Chunkable(Serialize(svc, entries).value, max) ==>
              var envelope := Serialize(svc, entries).value;
              r.Ok? && Chunking.Concat(r.value) == envelope[..|envelope| - 1]
  {
    var envelope :- Serialize(svc, entries);
    if Chunking.Chunkable(envelope, max) then
      Chunking.SplitAsWrittenDropsLastChar(envelope, max);
      Chunking.SplitAsWritten(envelope, max)
    else
      Chunking.SplitAsWritten(envelope, max)
  }

  /** The chunking serializer with both defects corrected: for a positive
      `max`, the cookies are at most `max` long and glue back to the whole
      envelope. */
  function SerializeChunkedFixed<V(!new)>(svc: Service<V>, entries: seq<(string, V)>, max: int): (r: Result<seq<string>>)
    requires Chunking.IsInt(max)
    ensures SerializeFixed(svc, entries).Err? ==> r == Err(SerializeFixed(svc, entries).error)
    ensures SerializeFixed(svc, entries).Ok? && max >= 1 ==>
              && r.Ok? && Chunking.Concat(r.value) == SerializeFixed(svc, entries).value
              && forall j :: 0 <= j < |r.value| ==> |r.value[j]| <= max
  {
    var envelope :- SerializeFixed(svc, entries);
    if max >= 1 then
      Chunking.SplitFixedReassembles(envelope, max);
      Chunking.SplitFixed(envelope, max)
    else
      Chunking.SplitFixed(envelope, max)
  }

  /** Corrected chunks, each at most `max` long, restore the session when
      the cookies come back in order. */
  lemma RestoreChunksFixed<V(!new)>(svc: Service<V>, entries: seq<(string, V)>, max: int)
    requires svc.Lawful() && Restorable(entries)
    requires 1 <= max <= Chunking.MaxInt
    requires SerializeFixed(svc, entries).Ok?
    ensures SerializeChunkedFixed(svc, entries, max).Ok?
    ensures forall j :: 0 <= j < |SerializeChunkedFixed(svc, entries, max).value| ==>
              |SerializeChunkedFixed(svc, entries, max).value[j]| <= max
    ensures RestoreCookies(svc, SerializeChunkedFixed(svc, entries, max).value) == Ok(FirstMap(entries))
  {
    var envelope := SerializeFixed(svc, entries).value;
    Chunking.SplitFixedReassembles(envelope, max);
    RestoreSerialized(svc, entries);
  }

  /** The signed bytes `S` of a serialization that succeeded. */
  function SignedOf<V(!new)>(svc: Service<V>, entries: seq<(string, V)>): Bytes
    requires Serialize(svc, entries).Ok?
  {
    Signable(svc.crypto, Assemble(svc.values, entries).value).value
  }

  /** The digest of a serialization that succeeded. */
  function DigestOf<V(!new)>(svc: Service<V>, entries: seq<(string, V)>): Bytes
    requires Serialize(svc, entries).Ok?
  {
    svc.signer.sign(SignedOf(svc, entries)).value
  }

  /** Two colon-free parts joined by a colon, less the last character, split
      into the first part and the second less its last character. */
  lemma SplitTruncatedPair(a: string, b: string, s: string)
    requires ':' !in a && ':' !in b && |b| >= 2
    requires s == a + [':'] + b
    ensures |s| > 0 && JavaSplit.Split(s[..|s| - 1], ':') == [a, b[..|b| - 1]]
  {
    var b' := b[..|b| - 1];
    assert s[..|s| - 1] == a + [':'] + b';
    assert ':' !in b' by {
      forall i | 0 <= i < |b'| ensures b'[i] != ':' {
        assert b'[i] == b[i];
      }
    }
    JavaSplit.SplitPair(a, b', ':');
  }

  /** An envelope without its last character still splits in two: the
      encoding of `S` and the digest's encoding less its last character. */
  lemma SealTruncatedSplit<V(!new)>(svc: Service<V>, payload: Bytes)
    requires svc.signer.Lawful()
    requires Seal(svc, payload).Ok?
    ensures var envelope := Seal(svc, payload).value;
            var signed := Signable(svc.crypto, payload).value;
            var b := Base64Url.Encode(svc.signer.sign(signed).value);
            && |envelope| > 0 && |b| > 1
            && JavaSplit.Split(envelope[..|envelope| - 1], ':') == [Base64Url.Encode(signed), b[..|b| - 1]]
  {
    var signed := Signable(svc.crypto, payload).value;
    var digest := svc.signer.sign(signed).value;
    var envelope := Seal(svc, payload).value;
    assert envelope == Base64Url.Encode(signed) + [':'] + Base64Url.Encode(digest) by {
      SealEnvelope(svc, payload);
    }
    EnvelopeTruncatedSplit(signed, digest, envelope);
  }

  /** An envelope of encoded bytes and a non-empty digest, less its last
      character, still splits in two. */
  lemma EnvelopeTruncatedSplit(signed: Bytes, digest: Bytes, envelope: string)
    requires |digest| > 0
    requires envelope == Base64Url.Encode(signed) + [':'] + Base64Url.Encode(digest)
    ensures var b := Base64Url.Encode(digest);
            && |envelope| > 0 && |b| > 1
            && JavaSplit.Split(envelope[..|envelope| - 1], ':') == [Base64Url.Encode(signed), b[..|b| - 1]]
  {
    var a, b := Base64Url.Encode(signed), Base64Url.Encode(digest);
    Base64Url.EncodeNonEmpty(digest);
    Base64Url.EncodeHasNoColon(signed);
    Base64Url.EncodeHasNoColon(digest);
    SplitTruncatedPair(a, b, envelope);
  }

  /** A sealed envelope is the encoded signable bytes, a colon and the
      encoded digest. */
  lemma SealEnvelope<V(!new)>(svc: Service<V>, payload: Bytes)
    requires Seal(svc, payload).Ok?
    ensures var signed := Signable(svc.crypto, payload).value;
            Seal(svc, payload).value ==
              Base64Url.Encode(signed) + [':'] + Base64Url.Encode(svc.signer.sign(signed).value)
  {
  }

  /** Unsealing an envelope without its last character, by the digest's
      length modulo 3. */
  lemma UnsealTruncated<V(!new)>(svc: Service<V>, payload: Bytes)
    requires svc.signer.Lawful() && (svc.crypto.Some? ==> svc.crypto.value.Lawful())
    requires Seal(svc, payload).Ok?
    ensures var envelope := Seal(svc, payload).value;
            var n := |svc.signer.sign(Signable(svc.crypto, payload).value).value|;
            var r := Unseal(svc, envelope[..|envelope| - 1]);
            && |envelope| > 0
            && (n % 3 == 2 ==> r == Ok(Some(payload)))
            && (n % 3 == 1 ==> r == Err(IllegalBase64))
            && (n % 3 == 0 ==> r == Ok(None))
  {
    var signed := Signable(svc.crypto, payload).value;
    var digest := svc.signer.sign(signed).value;
    SealTruncatedSplit(svc, payload);
    Base64Url.DecodeEncode(signed);
    Base64Url.DecodeTruncated(digest);
    if |digest| % 3 == 0 {
      assert digest[..|digest| - 1] != digest by {
        assert |digest[..|digest| - 1]| != |digest|;
      }
    }
  }

  /** Restoring a sealed envelope less its last character, by the digest's
      length modulo 3. */
  lemma RestoreSealTruncated<V(!new)>(svc: Service<V>, payload: Bytes)
    requires svc.signer.Lawful() && (svc.crypto.Some? ==> svc.crypto.value.Lawful())
    requires Seal(svc, payload).Ok?
    ensures var envelope := Seal(svc, payload).value;
            var n := |svc.signer.sign(Signable(svc.crypto, payload).value).value|;
            var r := Restore(svc, envelope[..|envelope| - 1]);
            && |envelope| > 0
            && (n % 3 == 2 ==> r == Read(svc, payload))
            && (n % 3 == 1 ==> r == Err(IllegalBase64))
            && (n % 3 == 0 ==> r == Ok(map[]))
  {
    UnsealTruncated(svc, payload);
  }

  /** A successful serialization is the seal of the assembled payload, and
      its digest signs that payload's signable bytes. */
  lemma SerializeIsSeal<V(!new)>(svc: Service<V>, entries: seq<(string, V)>)
    requires Serialize(svc, entries).Ok?
    ensures Assemble(svc.values, entries).Ok?
    ensures var payload := Assemble(svc.values, entries).value;
            && Seal(svc, payload) == Serialize(svc, entries)
            && DigestOf(svc, entries) == svc.signer.sign(Signable(svc.crypto, payload).value).value
  {
  }

  /** Restoring the envelope of a serialized session less its last
      character, by the digest's length modulo 3. */
  lemma RestoreTruncated<V(!new)>(svc: Service<V>, entries: seq<(string, V)>)
    requires svc.Lawful() && Restorable(entries)
    requires Serialize(svc, entries).Ok?
    ensures var envelope := Serialize(svc, entries).value;
            var r := Restore(svc, envelope[..|envelope| - 1]);
            var n := |DigestOf(svc, entries)|;
            && |envelope| > 0
            && (n % 3 == 2 ==> r == Ok(FirstMap(entries)))
            && (n % 3 == 1 ==> r == Err(IllegalBase64))
            && (n % 3 == 0 ==> r == Ok(map[]))
  {
    SerializeIsSeal(svc, entries);
    var payload := Assemble(svc.values, entries).value;
    RestoreSealTruncated(svc, payload);
    if |DigestOf(svc, entries)| % 3 == 2 {
      AssemblePayload(svc.values, entries);
      ReadAssembled(svc, entries);
    }
  }

  /** The as-written chunks of a serialized session glue back to its
      envelope less the last character. */
  lemma ChunksAsWrittenJoin<V(!new)>(svc: Service<V>, entries: seq<(string, V)>, max: int)
    requires Serialize(svc, entries).Ok?
    requires Chunking.Chunkable(Serialize(svc, entries).value, max)
    ensures SerializeChunked(svc, entries, max).Ok?
    ensures var envelope := Serialize(svc, entries).value;
            Chunking.Concat(SerializeChunked(svc, entries, max).value) == envelope[..|envelope| - 1]
  {
    var envelope := Serialize(svc, entries).value;
    Chunking.SplitAsWrittenDropsLastChar(envelope, max);
    assert SerializeChunked(svc, entries, max) == Chunking.SplitAsWritten(envelope, max);
  }

  /** Restoring the as-written chunks restores the envelope less its last
      character. */
  lemma ChunksRestoreTruncated<V(!new)>(svc: Service<V>, entries: seq<(string, V)>, max: int)
    requires Serialize(svc, entries).Ok?
    requires Chunking.Chunkable(Serialize(svc, entries).value, max)
    ensures SerializeChunked(svc, entries, max).Ok?
    ensures var envelope := Serialize(svc, entries).value;
            RestoreCookies(svc, SerializeChunked(svc, entries, max).value) == Restore(svc, envelope[..|envelope| - 1])
  {
    ChunksAsWrittenJoin(svc, entries, max);
  }

  /** What the line-69 defect does to a session split into more than one
      cookie: the envelope loses the last character of the digest's
      encoding. With a digest of `3k + 2` bytes (20 for HMAC-SHA1, 32 for
      HMAC-SHA256) only a padding `=` is lost and the lenient decoder still
      restores the session; with `3k + 1` bytes the decoder throws; with
      `3k` bytes the digest decodes one byte short and the session comes
      back empty. */
  lemma RestoreChunksAsWritten<V(!new)>(svc: Service<V>, entries: seq<(string, V)>, max: int)
    requires svc.Lawful() && Restorable(entries)
    requires Serialize(svc, entries).Ok?
    requires Chunking.Chunkable(Serialize(svc, entries).value, max)
    ensures SerializeChunked(svc, entries, max).Ok?
    ensures var r := RestoreCookies(svc, SerializeChunked(svc, entries, max).value);
            var n := |DigestOf(svc, entries)|;
            && (n % 3 == 2 ==> r == Ok(FirstMap(entries)))
            && (n % 3 == 1 ==> r == Err(IllegalBase64))
            && (n % 3 == 0 ==> r == Ok(map[]))
  {
    ChunksRestoreTruncated(svc, entries, max);
    RestoreTruncated(svc, entries);
  }

  /** The line-69 defect seen from the serializer: a session whose envelope
      is one character longer than a multiple of the cookie limit gets an
      empty last cookie. */
  lemma SerializeChunkedEmptyLast<V(!new)>(svc: Service<V>, entries: seq<(string, V)>, max: int, q: nat)
    requires Serialize(svc, entries).Ok?
    requires Chunking.Chunkable(Serialize(svc, entries).value, max)
    requires |Serialize(svc, entries).value| == q * max + 1
    ensures SerializeChunked(svc, entries, max).Ok?
    ensures |SerializeChunked(svc, entries, max).value| == q + 1
    ensures SerializeChunked(svc, entries, max).value[q] == ""
  {
    var envelope := Serialize(svc, entries).value;
    Chunking.SplitAsWrittenEmptyLast(envelope, max, q);
    assert SerializeChunked(svc, entries, max) == Chunking.SplitAsWritten(envelope, max);
  }
}
