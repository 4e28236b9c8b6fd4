# Client-side session codec

This Dafny project models the client-side session codec of Ratpack,
`DefaultClientSessionService`. The codec keeps a whole session in cookies.

**Serializing.**
- Each entry becomes `escapedKey=value`. The entries are joined with `&`, in the order the entry set iterates.
- The payload is encrypted if a `Crypto` is configured. Call the result `S`.
- `S` is wrapped in the envelope `base64url(S) ":" base64url(sign(S))`.
- The envelope can then be cut into partitions of at most `maxCookieSize` characters.

**Deserializing.**
- The cookie values are joined in the order given, and the result is split at `:`.
- A value that does not split into exactly two parts gives an empty session.
- Both parts are base64url-decoded and the signature is recomputed.
- A digest that does not match gives an empty session, not an error.
- Otherwise the payload is decrypted (if a `Crypto` is configured) and parsed as a query string.
- Each key gets the deserialization of its first value.

The model is functional. Bytes are `seq<Byte>`, strings are `seq<char>` and the session is an immutable `map`. The Java exceptions become the `Err` case of a `Result`.

Some library code is modelled concretely:
- the URL-safe `java.util.Base64` encoder and decoder. The decoder keeps Java's leniency: a missing final padding is accepted, while `xx=` and anything after the padding are rejected.
- Guava's form-parameter escaper.
- UTF-8 encoding.
- `String.split` with a one-character separator.

These pieces are concrete so that the effect of the chunking defect on a real envelope can be proved.

The signer, cipher, value serializer and Netty's query-string decoder are
function-valued fields of datatypes, and `None` stands for an exception. What
the codec relies on is stated as a `Lawful` predicate:
- decryption undoes encryption;
- a digest is never empty;
- the decoder inverts the payload format for non-empty keys;
- what the value serializer writes survives the decoder and reads back as the value written.

Modules:
- `Results`: `Result` and `Option`.
- `Utf8`: UTF-8 encoding.
- `FormEscaper`: the form-parameter escaper.
- `Base64Url`: the URL-safe base64 encoder and decoder.
- `JavaSplit`: `String.split`.
- `Payload`: key encoding and the `4n - 1` buffer array.
- `Chunking`: the cookie partitions.
- `QueryParameters`: the grouping done by `QueryStringDecoder.parameters()` and the first-value choice.
- `Collaborators`: the collaborators and their laws.
- `SessionCodec`: serialize and deserialize.

The serializer disagrees with its own deserializer in two places. In both, the model follows the code and proves, beside it, the behaviour of a corrected version that the deserializer accepts.
- An empty entry set throws at line 77, although lines 136-157 accept a signed empty payload as an empty session.
- The partitions lose the envelope's last character, although lines 123-130 only join them back and expect the whole envelope.

## Model

All source paths are `ratpack-session/src/main/java/ratpack/session/clientside/internal/DefaultClientSessionService.java`.

| member | source | states |
|---|---|---|
| Utf8.Encode | ratpack-session/src/main/java/ratpack/session/clientside/internal/DefaultClientSessionService.java:119 | The UTF-8 encoding of a string is at least one byte per character. |
| Utf8.EncodeAscii | ratpack-session/src/main/java/ratpack/session/clientside/internal/DefaultClientSessionService.java:119 | ASCII text is encoded as one byte per character, equal to the character's code. |
| Utf8.AsciiByteOnlyFromItsChar | ratpack-session/src/main/java/ratpack/session/clientside/internal/DefaultClientSessionService.java:119 | An ASCII byte appears in the UTF-8 encoding only where its own character appears in the text. |
| FormEscaper.Escape | ratpack-session/src/main/java/ratpack/session/clientside/internal/DefaultClientSessionService.java:41 | The escape is never shorter than its input, and it uses only unreserved characters, `+` and `%`. |
| FormEscaper.EscapedHasNoSeparators | ratpack-session/src/main/java/ratpack/session/clientside/internal/DefaultClientSessionService.java:118 | An escaped key contains no `=`, `&` or `:`. |
| FormEscaper.EscapedIsAscii | ratpack-session/src/main/java/ratpack/session/clientside/internal/DefaultClientSessionService.java:118 | An escaped key is ASCII. |
| FormEscaper.EscapeKeepsUnreserved | ratpack-session/src/main/java/ratpack/session/clientside/internal/DefaultClientSessionService.java:118 | A key made only of letters, digits and `-_.*` is left unchanged. |
| FormEscaper.EscapeAppend | ratpack-session/src/main/java/ratpack/session/clientside/internal/DefaultClientSessionService.java:118 | Escaping distributes over concatenation. |
| FormEscaper.EscapeExample | ratpack-session/src/main/java/ratpack/session/clientside/internal/DefaultClientSessionService.java:118 | `a b=c&d` escapes to `a+b%3Dc%26d`. |
| Base64Url.Encode | ratpack-session/src/main/java/ratpack/session/clientside/internal/DefaultClientSessionService.java:99-102 | The padded encoding has `4 * ceil(n / 3)` characters, each from the URL-safe alphabet or `=`. |
| Base64Url.DecodeEncode | ratpack-session/src/main/java/ratpack/session/clientside/internal/DefaultClientSessionService.java:138-139 | Decoding an encoding gives back the original bytes. |
| Base64Url.Decode | ratpack-session/src/main/java/ratpack/session/clientside/internal/DefaultClientSessionService.java:138-139 | The decoder throws on a length of `1 (mod 4)`. What it accepts uses only the URL-safe alphabet and `=`, with `=` nowhere but in the last two places. |
| Base64Url.EncodeHasNoColon | ratpack-session/src/main/java/ratpack/session/clientside/internal/DefaultClientSessionService.java:104 | An encoding never contains the session separator `:`. |
| Base64Url.DecodeTruncated | ratpack-session/src/main/java/ratpack/session/clientside/internal/DefaultClientSessionService.java:139 | An encoding without its last character behaves by `n % 3`. For `n % 3 == 1` the decoder rejects it. For `n % 3 == 2` it still decodes to the original bytes. For `n % 3 == 0` it decodes to the bytes less the last one. |
| JavaSplit.Segments | ratpack-session/src/main/java/ratpack/session/clientside/internal/DefaultClientSessionService.java:136 | Cutting at every separator gives at least one segment, and no segment contains the separator. |
| JavaSplit.JoinSegments | ratpack-session/src/main/java/ratpack/session/clientside/internal/DefaultClientSessionService.java:136 | Gluing the segments back together with the separator gives the original string. |
| JavaSplit.Split | ratpack-session/src/main/java/ratpack/session/clientside/internal/DefaultClientSessionService.java:136 | No part contains the separator. A string without it is one part. Otherwise the parts end with a non-empty one; joined with the separator they give the string up to trailing separators, and no parts means the string was separators only. |
| JavaSplit.DropTrailingEmpty | ratpack-session/src/main/java/ratpack/session/clientside/internal/DefaultClientSessionService.java:136 | The result is a prefix of the parts whose last element is non-empty. Only empty parts are dropped. |
| JavaSplit.SplitPair | ratpack-session/src/main/java/ratpack/session/clientside/internal/DefaultClientSessionService.java:136-137 | `a:b` with colon-free `a` and `b`, and `b` non-empty, splits into exactly `[a, b]`. |
| JavaSplit.SplitPairShape | ratpack-session/src/main/java/ratpack/session/clientside/internal/DefaultClientSessionService.java:136-137 | This is the converse of `SplitPair`. A string that splits into `[a, b]` is `a`, a colon, a non-empty `b`, and then nothing but colons. |
| JavaSplit.SplitEmpty | ratpack-session/src/main/java/ratpack/session/clientside/internal/DefaultClientSessionService.java:136 | The empty string splits into one empty part. |
| JavaSplit.SplitTrailingSeparator | ratpack-session/src/main/java/ratpack/session/clientside/internal/DefaultClientSessionService.java:136 | `a:b:` splits into `[a, b]`: a trailing empty part is dropped. |
| JavaSplit.SplitTrailingSeparators | ratpack-session/src/main/java/ratpack/session/clientside/internal/DefaultClientSessionService.java:136 | `abc::` splits into `[abc]`: every trailing empty part is dropped, so there is one part, not three. |
| JavaSplit.SplitOnlySeparators | ratpack-session/src/main/java/ratpack/session/clientside/internal/DefaultClientSessionService.java:136 | `::` splits into no parts at all. |
| JavaSplit.SplitInnerEmpty | ratpack-session/src/main/java/ratpack/session/clientside/internal/DefaultClientSessionService.java:136 | `a::b` splits into three parts: an inner empty part is kept. |
| Payload.EncodeKey | ratpack-session/src/main/java/ratpack/session/clientside/internal/DefaultClientSessionService.java:117-120 | An encoded key has one byte per escaped character, every byte below 0x80, and no `=` or `&` byte. |
| Payload.EncodeKeyUnreserved | ratpack-session/src/main/java/ratpack/session/clientside/internal/DefaultClientSessionService.java:117-120 | A key of unreserved characters is encoded as its character codes. |
| Payload.EncodeKeyExample | ratpack-session/src/main/java/ratpack/session/clientside/internal/DefaultClientSessionService.java:117-120 | The bytes of the key `a b=c&d`. |
| Payload.FillBuffers | ratpack-session/src/main/java/ratpack/session/clientside/internal/DefaultClientSessionService.java:77-89 | The filling loop fails with a negative array size for no entries. Otherwise it fills every one of the `4n - 1` slots with the slot's content, and puts no `&` after the last value. |
| Payload.FlattenAppend | ratpack-session/src/main/java/ratpack/session/clientside/internal/DefaultClientSessionService.java:91 | Reading buffers in order distributes over concatenation. |
| Payload.SlotsJoin | ratpack-session/src/main/java/ratpack/session/clientside/internal/DefaultClientSessionService.java:77-93 | Reading the slots in order gives the reference payload: `key=value` pairs joined by `&`, with none after the last. |
| Chunking.Wrap | ratpack-session/src/main/java/ratpack/session/clientside/internal/DefaultClientSessionService.java:68-69 | The result is an `int`. It leaves `int` values alone, and a value past `Integer.MAX_VALUE` (up to twice it) loses `2^32`. |
| Chunking.PartitionCount | ratpack-session/src/main/java/ratpack/session/clientside/internal/DefaultClientSessionService.java:65-66 | For a positive limit the count is the ceiling of length over limit. A zero limit makes an array too large to allocate. A negative limit gives no partitions when the length is below its magnitude, and a negative array size otherwise. |
| Chunking.CountIsCeiling | ratpack-session/src/main/java/ratpack/session/clientside/internal/DefaultClientSessionService.java:65 | For a positive limit below the length, there are at least two partitions, and `(count - 1) * max < len <= count * max`. |
| Chunking.SplitAsWritten | ratpack-session/src/main/java/ratpack/session/clientside/internal/DefaultClientSessionService.java:60-64 | An envelope no longer than the limit comes back as a one-element array holding it unchanged. |
| Chunking.PartitionsFrom | ratpack-session/src/main/java/ratpack/session/clientside/internal/DefaultClientSessionService.java:67-71 | The loop from index `i` either throws `StringIndexOutOfBoundsException` or yields one partition per remaining index, each shorter than the whole envelope. |
| Chunking.PartitionsFromLength | ratpack-session/src/main/java/ratpack/session/clientside/internal/DefaultClientSessionService.java:67-71 | Without wrap-around, the loop from index `i` yields `count - i` partitions. |
| Chunking.PartitionsFromHead | ratpack-session/src/main/java/ratpack/session/clientside/internal/DefaultClientSessionService.java:68-70 | Without wrap-around, partition `i` starts at `i * max` and ends at `min(i * max + max, len - 1)`. |
| Chunking.PartitionsFromPart | ratpack-session/src/main/java/ratpack/session/clientside/internal/DefaultClientSessionService.java:67-71 | Partition `j` of the loop from `i` is partition `i + j` of the envelope. |
| Chunking.PartitionsFromOverflow | ratpack-session/src/main/java/ratpack/session/clientside/internal/DefaultClientSessionService.java:68-70 | Suppose `count * max` passes `Integer.MAX_VALUE`. Then the last partition's `to` wraps negative and `substring` throws. |
| Chunking.SplitAsWrittenShape | ratpack-session/src/main/java/ratpack/session/clientside/internal/DefaultClientSessionService.java:65-70 | Take a longer envelope and no wrap-around. There are `ceil(len / max)` partitions. Partition `i` starts at `i * max` and is at most `max` long. |
| Chunking.SplitAsWrittenOverflow | ratpack-session/src/main/java/ratpack/session/clientside/internal/DefaultClientSessionService.java:68-70 | When `ceil(len / max) * max` passes `Integer.MAX_VALUE`, the splitter throws `StringIndexOutOfBoundsException`. |
| Chunking.PartitionsFromUnwrapped | ratpack-session/src/main/java/ratpack/session/clientside/internal/DefaultClientSessionService.java:66-71 | When no `int` arithmetic wraps, the loop's partition `j` is `s[from..to]` with `from = min(j * max, |s| - 1)` and `to = min(from + max, |s| - 1)`. |
| Chunking.ConcatUnwrappedFrom | ratpack-session/src/main/java/ratpack/session/clientside/internal/DefaultClientSessionService.java:67-71 | Those partitions from `i` on glue back to the envelope from `i * max` up to, but excluding, its last character. |
| Chunking.SplitAsWrittenDropsLastChar | ratpack-session/src/main/java/ratpack/session/clientside/internal/DefaultClientSessionService.java:68-70 | The partitions glue back to the envelope without its last character. |
| Chunking.SplitAsWrittenEmptyLast | ratpack-session/src/main/java/ratpack/session/clientside/internal/DefaultClientSessionService.java:68-70 | When the length is `q * max + 1`, there are `q + 1` partitions and the last is empty. |
| Chunking.SplitAsWrittenOverflowExample | ratpack-session/src/main/java/ratpack/session/clientside/internal/DefaultClientSessionService.java:68-70 | An envelope of `2^31 - 16` characters with a limit of `2^30 + 1` needs two partitions; the second one's end, `2^31 + 2`, wraps negative and the splitter throws. |
| Chunking.SplitFixed | ratpack-session/src/main/java/ratpack/session/clientside/internal/DefaultClientSessionService.java:59-73 | The corrected splitter keeps a short envelope whole. For a non-positive limit it behaves exactly as the original. |
| Chunking.PartitionsFixedLength | ratpack-session/src/main/java/ratpack/session/clientside/internal/DefaultClientSessionService.java:67 | The corrected loop from `i` yields `count - i` partitions. |
| Chunking.PartitionsFixedPart | ratpack-session/src/main/java/ratpack/session/clientside/internal/DefaultClientSessionService.java:68-70 | Corrected partition `i + j` runs from `(i + j) * max` to `min((i + j) * max + max, len)`. |
| Chunking.ConcatFixedFrom | ratpack-session/src/main/java/ratpack/session/clientside/internal/DefaultClientSessionService.java:67-71 | The corrected partitions from `i` on glue back to the envelope from `i * max` to its end. |
| Chunking.PartitionsFixedSizes | ratpack-session/src/main/java/ratpack/session/clientside/internal/DefaultClientSessionService.java:65-70 | There are `count` corrected partitions. Each is non-empty and at most `max` long. |
| Chunking.SplitFixedReassembles | ratpack-session/src/main/java/ratpack/session/clientside/internal/DefaultClientSessionService.java:59-73 | For any positive limit the corrected partitions glue back to the whole envelope. There are `ceil(len / max)` of them, each non-empty and at most `max` long. |
| Chunking.SplitFixedPart | ratpack-session/src/main/java/ratpack/session/clientside/internal/DefaultClientSessionService.java:68-70 | Corrected partition `j` starts at `j * max`. |
| Chunking.Split340Example | ratpack-session/src/main/java/ratpack/session/clientside/internal/DefaultClientSessionService.java:59-73 | Take a 340-character envelope and a limit of 100. Both splitters give four partitions. The as-written ones glue back to 339 characters, and the corrected ones to all 340. |
| QueryParameters.ValuesOfAbsent | ratpack-session/src/main/java/ratpack/session/clientside/internal/DefaultClientSessionService.java:154 | A name that does not occur has no values. |
| QueryParameters.Parameters | ratpack-session/src/main/java/ratpack/session/clientside/internal/DefaultClientSessionService.java:154 | The keys are exactly the names that occur. Each name's list is non-empty and holds all its values, in order. |
| QueryParameters.FirstMap | ratpack-session/src/main/java/ratpack/session/clientside/internal/DefaultClientSessionService.java:155-157 | The keys of the first-value map are exactly the names that occur. |
| QueryParameters.FirstMapFirst | ratpack-session/src/main/java/ratpack/session/clientside/internal/DefaultClientSessionService.java:156 | First value wins: a name maps to the value of the pair where it first occurs. |
| QueryParameters.ParameterEntries | ratpack-session/src/main/java/ratpack/session/clientside/internal/DefaultClientSessionService.java:154-155 | `parameters().entrySet()` has each occurring name once, with the non-empty list of all its values in order, and no other name. |
| QueryParameters.ParameterEntriesFirst | ratpack-session/src/main/java/ratpack/session/clientside/internal/DefaultClientSessionService.java:154-156 | The first value of each entry of `parameters()` is the first-value-wins value of its name, and the entries' names are the map's keys. |
| QueryParameters.FirstValue | ratpack-session/src/main/java/ratpack/session/clientside/internal/DefaultClientSessionService.java:154-156 | The first of a name's values is its first-value-wins value. |
| QueryParameters.FirstMapRelated | ratpack-session/src/main/java/ratpack/session/clientside/internal/DefaultClientSessionService.java:155-157 | Take two lists with the same names whose values are related pointwise. Their first-value maps have the same keys and are related key by key. |
| QueryParameters.FirstMapPair | ratpack-session/src/main/java/ratpack/session/clientside/internal/DefaultClientSessionService.java:155-157 | Two pairs with different names give a map of both. |
| QueryParameters.FirstMapExample | ratpack-session/src/main/java/ratpack/session/clientside/internal/DefaultClientSessionService.java:154-156 | Take `a=1&b=2&a=3`. The session map keeps `a` as `1`, while `parameters()` keeps both of `a`'s values in order. |
| SessionCodec.SerializeValues | ratpack-session/src/main/java/ratpack/session/clientside/internal/DefaultClientSessionService.java:81-84 | It succeeds exactly when the value serializer accepts every value. It then keeps every key and that value's bytes, in order. Otherwise it fails with the serializer's exception. |
| SessionCodec.Assemble | ratpack-session/src/main/java/ratpack/session/clientside/internal/DefaultClientSessionService.java:77-91 | An empty entry set fails with a negative array size. Otherwise the payload exists exactly when the serializer accepts every value, any failure is the serializer's exception, and the payload is the reference `key=value&...` text of the serialized pairs. |
| SessionCodec.AssembleFixed | ratpack-session/src/main/java/ratpack/session/clientside/internal/DefaultClientSessionService.java:77-91 | The corrected assembly gives an empty payload for an empty entry set. |
| SessionCodec.AssemblePayload | ratpack-session/src/main/java/ratpack/session/clientside/internal/DefaultClientSessionService.java:77-91 | For `n >= 1` entries the payload is `key1=value1&...&keyn=valuen`, in iteration order, with no trailing `&`. The keys are escaped and the values are the serializer's bytes. |
| SessionCodec.AssembleExample | ratpack-session/src/main/java/ratpack/session/clientside/internal/DefaultClientSessionService.java:77-91 | The payload of two entries, byte by byte. |
| SessionCodec.Serialize | ratpack-session/src/main/java/ratpack/session/clientside/internal/DefaultClientSessionService.java:76-115 | An empty entry set throws a negative array size. Otherwise any failure is the serializer's, the cipher's or the signer's, or an over-long string. An envelope fits in a Java string, and with a lawful signer and cipher it unseals to the assembled payload. |
| SessionCodec.SerializeFixed | ratpack-session/src/main/java/ratpack/session/clientside/internal/DefaultClientSessionService.java:76-115 | The corrected serializer seals an empty entry set as an empty payload. An envelope fits in a Java string, and with a lawful signer and cipher it unseals to the corrected payload. |
| SessionCodec.SerializeChunked | ratpack-session/src/main/java/ratpack/session/clientside/internal/DefaultClientSessionService.java:59-73 | Serializer failures pass through. An envelope no longer than the limit is one cookie. A longer one, when no `int` wraps, gives cookies that glue back to the envelope less its last character. |
| SessionCodec.SerializeChunkedFixed | ratpack-session/src/main/java/ratpack/session/clientside/internal/DefaultClientSessionService.java:59-73 | Serializer failures pass through. For any positive limit the cookies are at most that long and glue back to the whole envelope. |
| SessionCodec.Signable | ratpack-session/src/main/java/ratpack/session/clientside/internal/DefaultClientSessionService.java:94-97 | Without a cipher the signed bytes are the payload. With one they exist exactly when encryption succeeds and are then its ciphertext. A cipher failure is the only error. |
| SessionCodec.Seal | ratpack-session/src/main/java/ratpack/session/clientside/internal/DefaultClientSessionService.java:94-104 | An envelope exists only when encryption and signing succeed, and it fits in a Java string. A cipher failure surfaces as the cipher's exception. |
| SessionCodec.SealShape | ratpack-session/src/main/java/ratpack/session/clientside/internal/DefaultClientSessionService.java:94-104 | The envelope splits into exactly the encodings of `S` and of `sign(S)`. The signature covers `S`, which is the ciphertext when a cipher is configured. |
| SessionCodec.Unseal | ratpack-session/src/main/java/ratpack/session/clientside/internal/DefaultClientSessionService.java:136-151 | Anything but two parts is rejected. Bytes are accepted only if both parts decode and the digest equals the recomputed signature. |
| SessionCodec.SealOpens | ratpack-session/src/main/java/ratpack/session/clientside/internal/DefaultClientSessionService.java:138-151 | A sealed envelope passes the check at line 144, and decrypting gives the original payload. |
| SessionCodec.Read | ratpack-session/src/main/java/ratpack/session/clientside/internal/DefaultClientSessionService.java:152-157 | A decoder failure is the decoder's exception. Otherwise the session exists exactly when each key's first value deserializes; it then has exactly the payload's keys, each holding that deserialized value. |
| SessionCodec.Restore | ratpack-session/src/main/java/ratpack/session/clientside/internal/DefaultClientSessionService.java:132-166 | A value that does not split into two parts gives an empty session. A non-empty session comes only from a value whose digest matches the signature of its payload. |
| SessionCodec.RestoreCookies | ratpack-session/src/main/java/ratpack/session/clientside/internal/DefaultClientSessionService.java:123-130 | No cookies give an empty session and one cookie is restored as its value. A non-empty session comes only from cookies whose concatenation carries a matching digest. |
| SessionCodec.DeserializeInto | ratpack-session/src/main/java/ratpack/session/clientside/internal/DefaultClientSessionService.java:155-157 | The loop succeeds exactly when every entry's first value deserializes, and fails otherwise with the serializer's exception. The map gains exactly the entries' keys and keeps the rest. |
| SessionCodec.DeserializeIntoValues | ratpack-session/src/main/java/ratpack/session/clientside/internal/DefaultClientSessionService.java:155-157 | With distinct keys, each key ends up holding the deserialization of its own first value. |
| SessionCodec.DeserializeIntoMatches | ratpack-session/src/main/java/ratpack/session/clientside/internal/DefaultClientSessionService.java:155-157 | Over the distinct entries of `parameters()`, the loop builds the same session as deserializing each key's first value in a map. |
| SessionCodec.SerializeEmptyFails | ratpack-session/src/main/java/ratpack/session/clientside/internal/DefaultClientSessionService.java:77 | An empty entry set throws before anything is signed. The corrected serializer seals an empty payload. |
| SessionCodec.SerializeMatchesFixed | ratpack-session/src/main/java/ratpack/session/clientside/internal/DefaultClientSessionService.java:76-115 | For a non-empty entry set the as-written and corrected serializers agree. |
| SessionCodec.ReadAssembled | ratpack-session/src/main/java/ratpack/session/clientside/internal/DefaultClientSessionService.java:152-157 | Parsing an assembled payload gives each key the value of its first entry. |
| SessionCodec.RestoreSerialized | ratpack-session/src/main/java/ratpack/session/clientside/internal/DefaultClientSessionService.java:76-166 | Round trip: deserializing what the corrected serializer built gives back the entries. An empty entry set gives an empty session. |
| SessionCodec.RestoreSerializedAsWritten | ratpack-session/src/main/java/ratpack/session/clientside/internal/DefaultClientSessionService.java:76-166 | The as-written serializer succeeds only for a non-empty entry set, and what it builds deserializes back to the entries. |
| SessionCodec.RestoreExample | ratpack-session/src/main/java/ratpack/session/clientside/internal/DefaultClientSessionService.java:76-166 | `{user: alice, role: admin}` comes back as it went in. |
| SessionCodec.RestoreRejectsForgery | ratpack-session/src/main/java/ratpack/session/clientside/internal/DefaultClientSessionService.java:141-158 | A digest different from `sign(decoded payload)` gives an empty session, whatever the value serializer and decoder are. |
| SessionCodec.RestoreNeedsTwoParts | ratpack-session/src/main/java/ratpack/session/clientside/internal/DefaultClientSessionService.java:123-137 | An input that does not split into exactly two parts gives an empty session. This covers the empty string, no cookies at all, and `abc::`. |
| SessionCodec.RestoreChunksFixed | ratpack-session/src/main/java/ratpack/session/clientside/internal/DefaultClientSessionService.java:59-73 | Corrected chunks are at most `max` long. Joined in order by the cookie overload, they restore the session. |
| SessionCodec.SplitTruncatedPair | ratpack-session/src/main/java/ratpack/session/clientside/internal/DefaultClientSessionService.java:136 | `a:b` less its last character still splits into `a` and `b` less its last character. |
| SessionCodec.SealTruncatedSplit | ratpack-session/src/main/java/ratpack/session/clientside/internal/DefaultClientSessionService.java:136-137 | An envelope less its last character still splits in two. |
| SessionCodec.UnsealTruncated | ratpack-session/src/main/java/ratpack/session/clientside/internal/DefaultClientSessionService.java:138-151 | Unsealing an envelope less its last character depends on the digest length `n % 3`. For 2 it accepts the original payload. For 1 it throws `IllegalArgumentException`. For 0 it rejects. |
| SessionCodec.RestoreTruncated | ratpack-session/src/main/java/ratpack/session/clientside/internal/DefaultClientSessionService.java:136-157 | Restoring an envelope less its last character gives the session, an exception or an empty session, according to the digest length. |
| SessionCodec.ChunksAsWrittenJoin | ratpack-session/src/main/java/ratpack/session/clientside/internal/DefaultClientSessionService.java:59-73 | The as-written chunks of a serialized session glue back to its envelope less the last character. |
| SessionCodec.ChunksRestoreTruncated | ratpack-session/src/main/java/ratpack/session/clientside/internal/DefaultClientSessionService.java:123-130 | Restoring the as-written chunks is restoring the envelope less its last character. |
| SessionCodec.RestoreChunksAsWritten | ratpack-session/src/main/java/ratpack/session/clientside/internal/DefaultClientSessionService.java:68-70 | The chunked session survives only when the digest length is `2 (mod 3)`, as for HMAC-SHA1's 20 bytes. At `1 (mod 3)` deserializing throws. At `0 (mod 3)` the session comes back empty. |
| SessionCodec.SerializeChunkedEmptyLast | ratpack-session/src/main/java/ratpack/session/clientside/internal/DefaultClientSessionService.java:68-70 | An envelope of length `q * max + 1` is cut into `q + 1` cookies, the last of them empty. |

## Left out

- Netty `ByteBuf` allocation, composite wrapping and the `release()` loop (lines 43-44, 91-93, 106-113) are buffer lifetime management. Bytes are immutable sequences here.
- The `ConcurrentHashMap` of line 133 exists for concurrent access. The session is an immutable map.
- The `Registry` and `ByteBufAllocator` parameters are opaque. The registry is folded into the value serializer's functions.
- The implementations of `Signer`, `Crypto` and `ValueSerializer`, Netty's `QueryStringDecoder` and the UTF-8 decoding of line 152 are not shown. They are function fields constrained by the `Lawful` predicates in `Collaborators`.
- `Exceptions.uncheck` becomes `Unchecked(cause)`. The model does not separate checked from unchecked exceptions.
- A `null` returned by a collaborator becomes `None`, the same as a thrown exception. This differs from Java in one case: a signer returning `null` for the expected digest at line 142 makes `Arrays.equals` at line 144 false, so Java gives an empty session, while `Restore` gives `Err(Unchecked(SignerFailed))`.
- The `encodedPairs != null` test of line 135 is not modelled: the joined cookie value is never `null`.
- `SessionService.java` only declares the three signatures and is not part of this model.
- `Cookie` is its `value()` string.
- `(int) Math.ceil((double) len / max)` is modelled as the integer ceiling. For 32-bit operands the rounded quotient equals the exact ceiling.
- The `int` overflow of `4n - 1` for more than 2^29 entries is not modelled.
- A payload longer than `Integer.MAX_VALUE` bytes is not modelled.
- Java's base64 encoder failing on huge inputs is folded into `StringTooLong`, the error for an envelope longer than `Integer.MAX_VALUE` characters.
- A Dafny `char` is a Unicode scalar value, so keys with lone surrogates, which Guava's escaper rejects, cannot be written.
- SessionCodec.RestoreSerialized: promised only for at most 1024 entries with non-empty keys (`Restorable`). Netty's decoder drops parameters past 1024 and reads `=v` as the name `v`, so the round trip holds only under these limits.
- SessionCodec.RestoreChunksFixed: carries the same `Restorable` limits.
- SessionCodec.RestoreChunksAsWritten: carries the same `Restorable` limits.
- SessionCodec.RestoreRejectsForgery: states tamper detection on the decoded digest, not on flipped characters. Whether a flipped character changes the decoded digest depends on where it falls in the base64 padding.

## Findings

| source | as written | input that shows it | evidently intended | confidence | as-written member | corrected member |
|---|---|---|---|---|---|---|
| ratpack-session/src/main/java/ratpack/session/clientside/internal/DefaultClientSessionService.java:69 | `to = min(from + max, sessionSize - 1)` drops the envelope's last character | a 340-character envelope with `maxCookieSize` 100 gives partitions totalling 339 characters | `to = min(from + max, sessionSize)`, so the partitions glue back to the envelope | not executed | Chunking.SplitAsWrittenDropsLastChar | Chunking.SplitFixedReassembles |
| ratpack-session/src/main/java/ratpack/session/clientside/internal/DefaultClientSessionService.java:68-69 | `from + maxCookieSize` is computed in `int` and wraps around | an envelope of 2^31 - 16 characters with `maxCookieSize` 2^30 + 1 throws `StringIndexOutOfBoundsException` | the bound computed without overflow | not executed | Chunking.SplitAsWrittenOverflowExample | Chunking.SplitFixedReassembles |
| ratpack-session/src/main/java/ratpack/session/clientside/internal/DefaultClientSessionService.java:77 | the buffer array has length `4n - 1` | an empty entry set asks for length -1 and throws `NegativeArraySizeException` | an empty payload, signed as usual | not executed | SessionCodec.SerializeEmptyFails | SessionCodec.RestoreSerialized |
