# Serializer of mqtt-common, modelled in Dafny

This project models the `Serializer` class of the Python MQTT helper library
mqtt-common (`src/MqttLibPy/serializer.py`) and proves properties of the model.
`Serializer` turns an application message into the ordered list of envelopes its
client publishes. It can also turn one received envelope back into the message.

- `serialize` has three paths:
  - **Base64 path** (`encodeb64` without `valid_json`). A list is first written as
    JSON text. The UTF-8 bytes of the text are Base64-encoded (the alphabet of
    section 4 of RFC 4648). The Base64 text is then cut into pieces of the
    instance's message length limit, the way `textwrap.wrap` cuts text that has no
    whitespace.
  - **Batching path** (`valid_json` with a list). A greedy batcher,
    `_naive_knapsack`, groups the objects into batches. A batch of two or more
    objects serializes as a JSON list shorter than the limit; a lone object is only
    guaranteed to be no longer than the limit itself.
  - **Plain path.** A string without `encodeb64` travels as it is.

  Anything else is refused. Each fragment goes into an envelope stamped with:
  - its position and the fragment count;
  - a last-fragment flag;
  - the caller's flags and token;
  - the instance id;
  - a sequence number drawn from one counter shared by every instance.
- `deserialize` decodes a single-envelope message. It returns None on any failure.
- The small helpers are `decode_bytes`, the `MAX_MESSAGE_LENGTH` property (the
  setter stores five more than it is given) and `filter_html_tags`, which removes
  `<...>` tags with a regular expression.

Modules:

| file | module | what it holds |
|---|---|---|
| wrappers.dfy | Wrappers | `Option` and `Result` |
| seqs.dfy | Seqs | sequences of sequences laid end to end, and subsequences |
| json.dfy | Json | JSON values, Python truthiness, and `json.dumps` with its default separators and both `ensure_ascii` settings |
| utf8.dfy | Utf8 | UTF-8 encoding and strict decoding |
| base64.dfy | Base64 | Base64 encoding and decoding |
| textwrap.dfy | TextWrap | `textwrap.wrap` on text without break characters |
| knapsack.dfy | Knapsack | the batcher as a function, with its invariant and properties |
| envelope.dfy | Envelope | the envelope, its JSON object, and key lookup in a decoded object |
| serializer.dfy | Serializer | the `Serializer` and `SeqCounter` classes, the `serialize` paths, `deserialize` and `decode_bytes` |
| tags.dfy | Tags | `filter_html_tags` |

The class `Serializer.Serializer` holds:
- the instance id;
- the instance's limit `maxMessageLength`, which the setter updates in place;
- a reference to the shared `SeqCounter`, the class attribute `_SEQ`.

Its `NaiveKnapsack` method is the source's loop. It is proved to return exactly
what the function `Knapsack.Pack` returns, and the batching properties are proved
about `Pack`. Its `Serialize` method is proved equal to the function
`SerializeWith`, which the path lemmas are about. It is also proved to advance the
counter by one exactly when it succeeds.

## Model

| member | source | states |
|---|---|---|
| Json.Dumps | src/MqttLibPy/serializer.py:88-89 | `json.dumps` with its default separators, for either `ensure_ascii` setting; its properties are stated by `Json.ListLength` and `Json.DumpsAscii` |
| Json.ListLength | src/MqttLibPy/serializer.py:91-92 | the text of a list of k ≥ 1 objects is 2 + the sum of the objects' lengths + 2(k-1) characters long; the empty list's is 2 |
| Json.DumpsAscii | src/MqttLibPy/serializer.py:26 | `json.dumps` with `ensure_ascii` left on writes printable ASCII only |
| Json.NatText | src/MqttLibPy/serializer.py:88-89 | a number is written as decimal digits that spell exactly that number, with no leading zero |
| Utf8.Encode | src/MqttLibPy/serializer.py:27 | `str.encode('utf-8')`; its properties are stated by `Utf8.DecodeEncode`, `Utf8.EncodeDecode` and `Utf8.EncodeAscii` |
| Utf8.Decode | src/MqttLibPy/serializer.py:102-104 | strict `bytes.decode('utf-8')`, None where Python raises; inverse of `Utf8.Encode` by `Utf8.DecodeEncode` and `Utf8.EncodeDecode` |
| Utf8.DecodeEncode | src/MqttLibPy/serializer.py:27 | strict UTF-8 decoding reads back every encoded string |
| Utf8.EncodeDecode | src/MqttLibPy/serializer.py:102-104 | a byte string that decodes is exactly the encoding of what it decodes to |
| Utf8.EncodeAscii | src/MqttLibPy/serializer.py:26-27 | text below U+0080 encodes one byte per character, each byte the character's code point |
| Base64.Encode | src/MqttLibPy/serializer.py:27 | `base64.b64encode`, as text; its properties are stated by `Base64.DecodeEncode`, `Base64.EncodeLength` and `Base64.EncodeChars` |
| Base64.DecodeEncode | src/MqttLibPy/serializer.py:27 | decoding the Base64 text of any bytes gives those bytes back |
| Base64.EncodeLength | src/MqttLibPy/serializer.py:27-28 | the Base64 text of n bytes is 4·⌈n/3⌉ characters long |
| Base64.EncodeChars | src/MqttLibPy/serializer.py:27-29 | Base64 text holds only alphabet characters and `=` |
| TextWrap.Chunks | src/MqttLibPy/serializer.py:29 | the pieces join back to the text; each has 1 to `width` characters; all but the last have exactly `width`; there are none exactly for empty text and one exactly when the text fits |
| TextWrap.Wrap | src/MqttLibPy/serializer.py:29 | it fails exactly for a width below 1; otherwise the pieces join back to the text, none is longer than the width, all but the last have exactly the width, and text longer than the width gives at least two pieces |
| Knapsack.AsStr | src/MqttLibPy/serializer.py:88-89 | `_as_str`: `json.dumps` with `ensure_ascii=False` |
| Knapsack.Len | src/MqttLibPy/serializer.py:91-92 | `_len`: the length of `_as_str`; a list's length is stated by `Json.ListLength` |
| Knapsack.Pack | src/MqttLibPy/serializer.py:106-129 | `_naive_knapsack` under the limit `max`, the loop read as a fold over the input; its properties are stated by `Knapsack.PackOrder`, `Knapsack.PackBounded`, `Knapsack.PackClosed`, `Knapsack.PackFails`, `Knapsack.PackSums` and `Knapsack.OverflowKept` |
| Knapsack.PackOrder | src/MqttLibPy/serializer.py:115-129 | the batches laid end to end are a subsequence of the input that keeps every truthy object, in order; the first batch holds truthy objects only, and a falsy object can only be the first object of a later batch |
| Knapsack.ExtendsRun | src/MqttLibPy/serializer.py:115-128 | the loop only ever adds: closed batches stay as they are, and the open batch becomes the next batch of the later lists with what it held as its start |
| Knapsack.OverflowKept | src/MqttLibPy/serializer.py:120-126 | an object, falsy or not, whose list with the open batch reaches the limit appears in the output as the first object of the batch after the closed ones and the batch that was open |
| Knapsack.FalsyExamples | src/MqttLibPy/serializer.py:118-128 | `{}` after `{"a": 1}` under limit 12 gets a batch of its own; `{}` alone under limit 100 is dropped and there are no batches |
| Knapsack.PackBounded | src/MqttLibPy/serializer.py:118-126 | a batch of two or more objects serializes as a list shorter than the limit; no object in any batch is longer than the limit |
| Knapsack.PackClosed | src/MqttLibPy/serializer.py:118-128 | every batch after the first is non-empty and was closed only because the list of the next batch's first object and that batch reaches the limit; the last batch is non-empty |
| Knapsack.PackFails | src/MqttLibPy/serializer.py:117-126 | the batcher raises if and only if some object alone serializes longer than the limit |
| Knapsack.PackIsInvLists | src/MqttLibPy/serializer.py:115-129 | the output is the closed batches followed by the open one, or nothing when no object was kept |
| Knapsack.PackSums | src/MqttLibPy/serializer.py:108-112 | every batch's object lengths sum to at most the limit; a non-empty batch reaches the limit exactly when it is one object exactly the limit long |
| Knapsack.PackEmpty | src/MqttLibPy/serializer.py:115-129 | an empty input gives no batches |
| Knapsack.NothingKept | src/MqttLibPy/serializer.py:115-119 | while every object is falsy and fits as a one-element list, the loop's lists stay empty |
| Knapsack.LeadingEmptyBatch | src/MqttLibPy/serializer.py:118-128 | when the first object the loop keeps (every earlier one falsy and fitting) reaches the limit as a one-element list, the output's first batch is empty and that object opens the second |
| Knapsack.FirstBatchEmpty | src/MqttLibPy/serializer.py:115-129 | the output starts with an empty batch if and only if the first object the loop keeps reaches the limit as a one-element list |
| Knapsack.LoneOverflow | src/MqttLibPy/serializer.py:118-128 | for the one-object input `[o]`, an object no longer than the limit whose one-element list reaches it gives exactly the batches `[]` and `[o]` |
| Knapsack.DocstringBoundCounterexample | src/MqttLibPy/serializer.py:112 | with limit 10, the object {"a": "b"} (10 characters) is batched as `[[], [o]]`, and the second batch's sum misses "lower than" the limit |
| Knapsack.ThreeSmallObjects | src/MqttLibPy/serializer.py:115-129 | {"a": 1}, {"a": 2}, {"a": 3} under limit 20 give one batch per object, since any pair's list is exactly 20 characters |
| Knapsack.RunInv | src/MqttLibPy/serializer.py:117-126 | after any prefix of the input the loop's lists keep the bound, closing, ordering and membership invariants |
| Knapsack.RunErrExtends | src/MqttLibPy/serializer.py:122-125 | once the loop has raised, further input does not change the outcome |
| Envelope.Build | src/MqttLibPy/serializer.py:44-56 | one envelope per fragment, in order; each knows its position and the count, exactly the last is flagged last, `encoding` is "b64 utf-8" exactly when `encoded`, and all carry the call's stamp |
| Envelope.Lookup | src/MqttLibPy/serializer.py:66-73 | a key is found exactly when some member has it |
| Envelope.LookupLast | src/MqttLibPy/serializer.py:66-73 | a decoded object yields the value of the last member with the key |
| Envelope.LookupFields | src/MqttLibPy/serializer.py:44-56 | a decoded envelope object yields the envelope's data, fragment count and flags under the source's key names |
| Serializer.DecodeBytes | src/MqttLibPy/serializer.py:102-104 | decoded text re-encodes to exactly the given bytes |
| Serializer.DecodeBytesEncoded | src/MqttLibPy/serializer.py:102-104 | `decode_bytes` reads back every UTF-8 encoded string |
| Serializer.Base64Fragments | src/MqttLibPy/serializer.py:27-31 | the fragments of the Base64 path; stated by `Serializer.Base64Path` and `Serializer.Base64Recovers` |
| Serializer.Fragments | src/MqttLibPy/serializer.py:24-40 | the branches of `serialize` before the envelopes are built; stated path by path by `Serializer.Base64Path`, `Serializer.BatchPath`, `Serializer.PlainPath` and `Serializer.Refusals` |
| Serializer.SerializeWith | src/MqttLibPy/serializer.py:22-56 | it fails exactly when the fragmenting fails; on success the envelopes carry the fragments in order, are indexed and share the call's stamp |
| Serializer.Base64HasNoBreaks | src/MqttLibPy/serializer.py:27-29 | Base64 text holds no character textwrap could break at |
| Serializer.Base64Path | src/MqttLibPy/serializer.py:24-31 | see the note below the table |
| Serializer.Base64Recovers | src/MqttLibPy/serializer.py:24-31 | what the Base64 path sends decodes back to the UTF-8 bytes of the text, and those back to the text |
| Serializer.Base64ListIsAscii | src/MqttLibPy/serializer.py:25-27 | a list on the Base64 path is written as printable ASCII; its UTF-8 bytes are its characters one for one, and the Base64 text takes 4·⌈n/3⌉ characters for n characters of JSON |
| Serializer.BatchPath | src/MqttLibPy/serializer.py:32-33 | see the note below the table |
| Serializer.PlainPath | src/MqttLibPy/serializer.py:34-35 | a string without `encodeb64` gives exactly one envelope holding the string unchanged, however long it is |
| Serializer.Refusals | src/MqttLibPy/serializer.py:24-40 | a list with neither flag gives "Type must be str"; a string with both flags gives "Incorrect data type"; any other value fails on `.encode` on the Base64 path and gets the RuntimeError that `valid_json` picks elsewhere |
| Serializer.DecodePacket | src/MqttLibPy/serializer.py:66-78 | the body of the `try` of `deserialize` on a decoded packet, None where it raises; stated on envelopes by `Serializer.DeserializeEnvelope` |
| Serializer.Deserialize | src/MqttLibPy/serializer.py:58-80 | `deserialize` with `json.loads` as a parameter, None on any exception; stated by `Serializer.DeserializeEnvelope`, `Serializer.SerializeThenDeserialize` and `Serializer.PlainRoundTrip` |
| Serializer.DeserializeEnvelope | src/MqttLibPy/serializer.py:58-80 | see the note below the table |
| Serializer.SerializeThenDeserialize | src/MqttLibPy/serializer.py:22-80 | a receiver gets back from every envelope of a call: the string itself for a string sent without flags; its parse with `valid_json`; None for every other kind of envelope |
| Serializer.PlainRoundTrip | src/MqttLibPy/serializer.py:34-78 | a string sent without flags gives one envelope, and deserializing its wire text gives the string back |
| Serializer.SeqCounter.constructor | src/MqttLibPy/serializer.py:14 | the shared counter starts at 0 |
| Serializer.Serializer.constructor | src/MqttLibPy/serializer.py:13-20 | a new serializer has the given id, the given shared counter and the class default limit 40000 |
| Serializer.Serializer.MaxMessageLength | src/MqttLibPy/serializer.py:94-96 | the `MAX_MESSAGE_LENGTH` getter: the instance's limit; the setter's contract is stated through it |
| Serializer.Serializer.SetMaxMessageLength | src/MqttLibPy/serializer.py:98-100 | after setting `v` the getter returns `v + 5` |
| Serializer.Serializer.Seq | src/MqttLibPy/serializer.py:82-86 | returns the counter's old value and increases the shared counter by exactly 1 |
| Serializer.Serializer.NaiveKnapsack | src/MqttLibPy/serializer.py:106-129 | the loop returns exactly the batcher function's result under the instance's limit, including its exception |
| Serializer.Serializer.Serialize | src/MqttLibPy/serializer.py:22-56 | returns the function's result under the instance's limit, id and the counter's old value; advances the counter by 1 exactly when it succeeds |
| Serializer.SharedSequence | src/MqttLibPy/serializer.py:14 | two serializers built on one counter draw the sequence numbers 0 and 1 |
| Tags.FilterHtmlTags | src/MqttLibPy/serializer.py:131-134 | `filter_html_tags`; its properties are stated by `Tags.FilteredIsSubseq`, `Tags.FilteredIsTagFree`, `Tags.FilterFixedPoints` and `Tags.Examples` |
| Tags.StopAt | src/MqttLibPy/serializer.py:132 | the first `>` or line break at or after the index, or the end of the text |
| Tags.FilteredIsSubseq | src/MqttLibPy/serializer.py:131-134 | the filter's output is its input with some characters left out, in order |
| Tags.FilteredIsTagFree | src/MqttLibPy/serializer.py:131-134 | no tag starts anywhere in the output |
| Tags.FilterFixedPoints | src/MqttLibPy/serializer.py:131-134 | the filter leaves a text unchanged if and only if no tag starts in it, and filtering twice is filtering once |
| Tags.NoBracketUnchanged | src/MqttLibPy/serializer.py:131-134 | a text with no `<`, or with no `>`, is returned unchanged |
| Tags.TagFreeUnchanged | src/MqttLibPy/serializer.py:131-134 | a tag-free text is returned unchanged |
| Tags.Examples | src/MqttLibPy/serializer.py:131-134 | `<b>hi</b>` becomes `hi`; a `<` whose `>` lies past a line break is kept |

Notes on the rows marked "see the note below the table":
- **Serializer.Base64Path.**
  - It fails exactly when the Base64 text is longer than the limit and the limit is below 1.
  - Otherwise every envelope carries Base64 text and is marked encoded with "b64 utf-8", and the pieces joined give exactly the Base64 text of the message's UTF-8 bytes.
  - There is one piece exactly when the text fits the limit. A longer text gives two or more pieces, none longer than the limit, all but the last exactly the limit.
- **Serializer.BatchPath.**
  - It fails exactly when some object alone is longer than the limit.
  - Otherwise there is one envelope per batch, in order, each carrying its batch as a list.
  - With `encodeb64` the envelopes are still marked encoded with "b64 utf-8", although nothing was Base64-encoded.
- **Serializer.DeserializeEnvelope.** On the wire text of an envelope it gives:
  - None when the count is above 1, and None when the envelope is encoded;
  - otherwise the data; with `is_valid_json`, the parse of the string data, or None.

## Left out

- src/MqttLibPy/client.py and src/MqttLibPy/MqttClient.py are not part of this model. They are publish/subscribe wrappers over the paho-mqtt library. The wire text of an envelope is modelled as `json.dumps` of the envelope's object with its defaults (`Envelope.Wire`), which is what the client publishes.
- test/test_serialize.py is not part of this model: every test returns before doing anything.
- Encryption and file transfer have no implementation in the modelled source.
- `uuid4()` for the instance id is randomness. The id is a constructor parameter.
- The `print` in the error handler of `deserialize` is logging. Only its result None is kept.
- `json.loads` is not modelled. `Deserialize` takes it as a parameter `loads`. The round-trip lemmas assume it reads an envelope's wire text back as the envelope's object (`ReadsWire`).
- Serializer.Deserialize: Python's None and a decoded JSON null are both `JNull`, as they are indistinguishable to a caller in the source too.
- Floating-point JSON numbers, NaN and infinities are left out of the JSON model. A float in a message is not representable.
- JSON objects are member sequences. Duplicate keys cannot arise from a Python dict; a decoded object keeps the last duplicate, as `Envelope.Lookup` does.
- Messages are JSON values. Python values that JSON cannot hold, such as bytes, sets and objects, are left out.
- The flags are Python `bool`s; truthy non-bool flags are left out.
- Strings are sequences of Unicode scalar values. A Python string holding a lone surrogate, on which `str.encode('utf-8')` raises, is not representable.
- `textwrap.wrap` is modelled only on text without whitespace and hyphens, which is all it receives here (Base64 text). `re.sub` is modelled only for the pattern `<.*?>`.
- The integers are unbounded, as Python's are. `_MAX_SEQ` is declared but never consulted, so the counter never wraps.
- Where the code differs from what its names and docstring suggest, the model follows the code:
  - the counter is the class attribute `_SEQ`, one value shared by every instance, unlike a per-instance counter;
  - lengths are counted in code points of the `ensure_ascii=False` text, not in bytes of what is published;
  - the docstring of `_naive_knapsack` promises batches whose objects sum below the limit, but an object exactly as long as the limit is accepted, alone in its batch (`Knapsack.PackSums`, `Knapsack.DocstringBoundCounterexample`);
  - a falsy object that fits is dropped, while one that reaches the limit is kept and opens a batch (`Knapsack.OverflowKept`, `Knapsack.FalsyExamples`);
  - the first batch can be empty (`Knapsack.FirstBatchEmpty`, `Knapsack.LeadingEmptyBatch`).
