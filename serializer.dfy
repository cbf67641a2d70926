/**
 * The `Serializer` class: it turns an application message into the list of
 * envelopes the MQTT client publishes, and turns one received envelope back into
 * the message.
 *
 * A message goes one of three ways. With `encodeb64` set and `valid_json` clear, a
 * list is first written as JSON text, the text's UTF-8 bytes are Base64-encoded and
 * the Base64 text is cut into pieces of the instance's message length limit. With
 * `valid_json` set, a list is batched greedily (module Knapsack). A plain string
 * without `encodeb64` travels as it is. Anything else is refused.
 */
module Serializer {
  import opened Wrappers
  import opened Json
  import Utf8
  import Base64
  import TextWrap
  import Seqs
  import opened Knapsack
  import opened Envelope

  /** The class-wide default for the message length limit. */
  const DEFAULT_MAX_MESSAGE_LENGTH: int := 40000
  /** Declared next to the counter ("almost the largest signed 32-bit value") but never consulted. */
  const MAX_SEQ: int := 2147483640

  /** What `serialize` raises. */
  datatype SerializeError =
    | NoEncodeMethod            // `message.encode` on a value that is neither a string nor a list (AttributeError)
    | InvalidWrapWidth(width: int) // textwrap refuses a width below 1 (ValueError)
    | ObjectTooLong(obj: Json)  // the batcher met an object longer than the limit
    | TypeMustBeStr             // "Type must be str for non json messages"
    | IncorrectDataType         // "Incorrect data type for message"

  // ---------------------------------------------------------------------------
  // Fragments

  /** The text the Base64 path encodes: a list is first written with `json.dumps` and its defaults. */
  function Base64Source(message: Json): string
    requires message.JStr? || message.JArr?
  {
    if message.JArr? then Dumps(message, true) else message.s
  }

  /** `base64.b64encode(text.encode('utf-8'))`, read as text. */
  function Base64Body(text: string): string {
    Base64.Encode(Utf8.Encode(text))
  }

  /** Base64 text never holds a character textwrap could break at. */
  lemma Base64HasNoBreaks(bs: seq<Utf8.byte>)
    ensures TextWrap.NoBreakChars(Base64.Encode(bs))
  {
    Base64.EncodeChars(bs);
  }

  /** The fragments of the Base64 path: one piece if the Base64 text fits the limit, else textwrap's pieces. */
  function Base64Fragments(text: string, max: int): Result<seq<Json>, SerializeError> {
    var b64 := Base64Body(text);
    if |b64| > max then
      Base64HasNoBreaks(Utf8.Encode(text));
      match TextWrap.Wrap(b64, max)
      case Err(_) => Err(InvalidWrapWidth(max))
      case Ok(pieces) => Ok(seq(|pieces|, i requires 0 <= i < |pieces| => JStr(pieces[i])))
    else Ok([JStr(b64)])
  }

  /** The batches of the batching path, each carried as a JSON list. */
  function Batches(bs: seq<seq<Json>>): (r: seq<Json>)
    ensures |r| == |bs|
  {
    seq(|bs|, i requires 0 <= i < |bs| => JArr(bs[i]))
  }

  /** The branch structure of `serialize` before the envelopes are built; `max` is the instance's limit. */
  function Fragments(message: Json, encodeb64: bool, validJson: bool, max: int): Result<seq<Json>, SerializeError> {
    if encodeb64 && !validJson then
      if message.JArr? || message.JStr? then Base64Fragments(Base64Source(message), max)
      else Err(NoEncodeMethod)
    else if message.JArr? && validJson then
      match Pack(message.items, max)
      case Err(OversizeObject(o)) => Err(ObjectTooLong(o))
      case Ok(bs) => Ok(Batches(bs))
    else if !encodeb64 && message.JStr? then Ok([message])
    else if !validJson then Err(TypeMustBeStr)
    else Err(IncorrectDataType)
  }

  /** What `serialize` returns when the shared counter stands at `seqNo` and the instance is `origin` with limit `max`. */
  function SerializeWith(message: Json, encodeb64: bool, validJson: bool, isError: bool, token: string,
                         max: int, origin: string, seqNo: int): (r: Result<seq<Envelope>, SerializeError>)
    ensures r.Err? <==> Fragments(message, encodeb64, validJson, max).Err?
    ensures r.Ok? ==> Payloads(r.value) == Fragments(message, encodeb64, validJson, max).value
    ensures r.Ok? ==> Indexed(r.value) && Stamped(r.value, Stamp(seqNo, encodeb64, validJson, isError, token, origin))
  {
    match Fragments(message, encodeb64, validJson, max)
    case Err(e) => Err(e)
    case Ok(f) => Ok(Build(f, Stamp(seqNo, encodeb64, validJson, isError, token, origin)))
  }

  // ---------------------------------------------------------------------------
  // What `serialize` promises, path by path

  /** The pieces of a text, once each travels as the `data` of an envelope, are read back in order. */
  lemma TextsOfPieces(pieces: seq<string>, s: Stamp)
    ensures DataTexts(Build(seq(|pieces|, i requires 0 <= i < |pieces| => JStr(pieces[i])), s)) == pieces
  {
    var r := Build(seq(|pieces|, i requires 0 <= i < |pieces| => JStr(pieces[i])), s);
    forall i | 0 <= i < |pieces| ensures DataTexts(r)[i] == pieces[i] {
      assert Payloads(r)[i] == JStr(pieces[i]);
    }
  }

  /**
   * The Base64 path. It fails only when the Base64 text is longer than the limit and
   * the limit is below 1. Otherwise every envelope carries a piece of Base64 text, the
   * pieces joined give the whole Base64 text, there is a single piece exactly when the
   * text fits the limit, and a longer text is cut into two or more pieces of at most
   * the limit, all but the last of exactly the limit. Every envelope is marked encoded.
   */
  lemma Base64Path(message: Json, isError: bool, token: string, max: int, origin: string, seqNo: int)
    requires message.JStr? || message.JArr?
    ensures var b64 := Base64Body(Base64Source(message));
      var r := SerializeWith(message, true, false, isError, token, max, origin, seqNo);
      (r.Err? <==> |b64| > max && max <= 0) &&
      (r.Ok? ==>
        (forall n :: 0 <= n < |r.value| ==> r.value[n].data.JStr? && r.value[n].encoded && r.value[n].encoding == B64Utf8) &&
        Seqs.Concat(DataTexts(r.value)) == b64 &&
        (|r.value| == 1 <==> |b64| <= max) &&
        (|b64| > max ==> |r.value| >= 2) &&
        (|b64| > max ==> forall n :: 0 <= n < |r.value| ==> |DataTexts(r.value)[n]| <= max) &&
        (forall n :: 0 <= n < |r.value| - 1 ==> |DataTexts(r.value)[n]| == max))
  {
    var b64 := Base64Body(Base64Source(message));
    var st := Stamp(seqNo, true, false, isError, token, origin);
    var r := SerializeWith(message, true, false, isError, token, max, origin, seqNo);
    if r.Ok? {
      Base64HasNoBreaks(Utf8.Encode(Base64Source(message)));
      if |b64| > max {
        var pieces := TextWrap.Wrap(b64, max).value;
        TextsOfPieces(pieces, st);
      } else {
        assert r.value == Build([JStr(b64)], st);
        assert DataTexts(r.value) == [b64];
        assert Seqs.Concat([b64]) == b64 + Seqs.Concat([]);
      }
      forall n | 0 <= n < |r.value| ensures r.value[n].data.JStr? {
        assert Payloads(r.value)[n] == r.value[n].data;
      }
    }
  }

  /** What the Base64 path sends can be recovered: the joined pieces decode to the UTF-8 bytes of the text, and those to the text. */
  lemma Base64Recovers(message: Json, isError: bool, token: string, max: int, origin: string, seqNo: int)
    requires message.JStr? || message.JArr?
    requires SerializeWith(message, true, false, isError, token, max, origin, seqNo).Ok?
    ensures var r := SerializeWith(message, true, false, isError, token, max, origin, seqNo).value;
      var bytes := Base64.Decode(Seqs.Concat(DataTexts(r)));
      bytes.Some? && DecodeBytes(bytes.value) == Some(Base64Source(message))
  {
    Base64Path(message, isError, token, max, origin, seqNo);
    Base64.DecodeEncode(Utf8.Encode(Base64Source(message)));
    Utf8.DecodeEncode(Base64Source(message));
  }

  /**
   * A list on the Base64 path is written as printable ASCII (non-ASCII characters
   * escaped), so its UTF-8 bytes are its characters one for one and the Base64 text
   * takes four characters per three characters of JSON.
   */
  lemma Base64ListIsAscii(items: seq<Json>)
    ensures var text := Base64Source(JArr(items));
      PrintableAscii(text) &&
      |Utf8.Encode(text)| == |text| &&
      (forall i :: 0 <= i < |text| ==> Utf8.Encode(text)[i] == text[i] as int) &&
      |Base64Body(text)| == 4 * ((|text| + 2) / 3)
  {
    var text := Base64Source(JArr(items));
    DumpsAscii(JArr(items));
    Utf8.EncodeAscii(text);
    Base64.EncodeLength(Utf8.Encode(text));
  }

  /**
   * The batching path (`valid_json` with a list, whatever `encodeb64` says). It fails
   * exactly when some object alone serializes longer than the limit; otherwise there
   * is one envelope per batch of the batcher, in order, each carrying its batch as a
   * list, and the envelopes are marked encoded exactly when `encodeb64` was set,
   * although nothing was Base64-encoded.
   */
  lemma BatchPath(items: seq<Json>, encodeb64: bool, isError: bool, token: string, max: int, origin: string, seqNo: int)
    ensures var r := SerializeWith(JArr(items), encodeb64, true, isError, token, max, origin, seqNo);
      (r.Err? <==> exists i :: 0 <= i < |items| && Len(items[i]) > max) &&
      (r.Ok? ==>
        var bs := Pack(items, max).value;
        |r.value| == |bs| &&
        (forall n :: 0 <= n < |r.value| ==> r.value[n].data == JArr(bs[n])) &&
        (forall n :: 0 <= n < |r.value| ==> r.value[n].encoded == encodeb64 && (r.value[n].encoding == B64Utf8 <==> encodeb64)))
  {
    PackFails(items, max);
    var r := SerializeWith(JArr(items), encodeb64, true, isError, token, max, origin, seqNo);
    if r.Ok? {
      var bs := Pack(items, max).value;
      forall n | 0 <= n < |r.value| ensures r.value[n].data == JArr(bs[n]) {
        assert Payloads(r.value)[n] == r.value[n].data;
        assert Batches(bs)[n] == JArr(bs[n]);
      }
    }
  }

  /** A string without `encodeb64` travels whole in a single envelope, however long it is. */
  lemma PlainPath(s: string, validJson: bool, isError: bool, token: string, max: int, origin: string, seqNo: int)
    ensures SerializeWith(JStr(s), false, validJson, isError, token, max, origin, seqNo)
      == Ok([Envelope(JStr(s), seqNo, 0, 1, true, false, validJson, NotEncoded, isError, token, origin)])
  {
    var b := Build([JStr(s)], Stamp(seqNo, false, validJson, isError, token, origin));
    assert b[0] == Envelope(JStr(s), seqNo, 0, 1, true, false, validJson, NotEncoded, isError, token, origin);
    assert b == [b[0]];
  }

  /**
   * The refusals: a list with neither flag, a string with both flags, and any other
   * value, which fails on `.encode` on the Base64 path and with one of the two
   * RuntimeErrors elsewhere.
   */
  lemma Refusals(message: Json, encodeb64: bool, validJson: bool, max: int)
    ensures message.JArr? && !encodeb64 && !validJson ==> Fragments(message, encodeb64, validJson, max) == Err(TypeMustBeStr)
    ensures message.JStr? && encodeb64 && validJson ==> Fragments(message, encodeb64, validJson, max) == Err(IncorrectDataType)
    ensures !message.JStr? && !message.JArr? ==>
      Fragments(message, encodeb64, validJson, max) ==
        Err(if encodeb64 && !validJson then NoEncodeMethod else if validJson then IncorrectDataType else TypeMustBeStr)
  {
  }

  // ---------------------------------------------------------------------------
  // Decoding

  /** `decode_bytes`: strict UTF-8 decoding; None where Python raises. */
  function DecodeBytes(message: seq<Utf8.byte>): (r: Option<string>)
    ensures r.Some? ==> Utf8.Encode(r.value) == message
  {
    var r := Utf8.Decode(message);
    if r.Some? then Utf8.EncodeDecode(message); r else r
  }

  /** `packet["total_fragments"] > 1`: None where the comparison raises (a value that is neither a number nor a bool). */
  function MoreThanOne(v: Json): Option<bool> {
    match v
    case JInt(i) => Some(i > 1)
    case JBool(_) => Some(false)
    case _ => None
  }

  /** The body of the `try` of `deserialize` on a decoded packet; None where it raises. */
  function DecodePacket(packet: Json, loads: string -> Option<Json>): Option<Json> {
    if !packet.JObj? then None
    else
      var ms := packet.members;
      match Lookup(ms, "total_fragments")
      case None => None
      case Some(total) =>
        match MoreThanOne(total)
        case None => None
        case Some(true) => None
        case Some(false) =>
          match Lookup(ms, "encoded")
          case None => None
          case Some(encoded) =>
            // A decoded JSON value has no `.decode`, so a truthy flag always raises.
            if Truthy(encoded) then None
            else
              match Lookup(ms, "data")
              case None => None
              case Some(text) =>
                match Lookup(ms, "is_valid_json")
                case None => None
                case Some(valid) =>
                  if !Truthy(valid) then Some(text)
                  else if text.JStr? then loads(text.s)
                  else None
  }

  /**
   * `deserialize(message)`, with `json.loads` as the parameter `loads` (None where
   * it raises). A raised exception is printed and swallowed, so the call returns
   * None: JNull here, as for a decoded JSON null.
   */
  function Deserialize(message: string, loads: string -> Option<Json>): Json {
    match loads(message)
    case None => JNull
    case Some(packet) =>
      match DecodePacket(packet, loads)
      case None => JNull
      case Some(v) => v
  }

  /** `decode_bytes` reads back what `str.encode('utf-8')` wrote. */
  lemma DecodeBytesEncoded(s: string)
    ensures DecodeBytes(Utf8.Encode(s)) == Some(s)
  {
    Utf8.DecodeEncode(s);
  }

  /**
   * `deserialize` on a published envelope, given a `loads` that reads the wire text
   * back as the envelope's object: a fragment of a longer list and an encoded
   * envelope give None; otherwise the data comes back as it is, or, with
   * `is_valid_json`, as the JSON a string data parses to (None if it does not parse
   * or is not a string).
   */
  lemma DeserializeEnvelope(e: Envelope, loads: string -> Option<Json>)
    requires loads(Wire(e)) == Some(ToJson(e))
    ensures Deserialize(Wire(e), loads) ==
      if e.totalFragments > 1 || e.encoded then JNull
      else if !e.isValidJson then e.data
      else if e.data.JStr? && loads(e.data.s).Some? then loads(e.data.s).value
      else JNull
  {
    LookupFields(e);
  }

  /** `loads` reads every published envelope back as its object, as `json.loads` reads `json.dumps`. */
  ghost predicate ReadsWire(loads: string -> Option<Json>) {
    forall e: Envelope :: loads(Wire(e)) == Some(ToJson(e))
  }

  /** What a receiver gets back from a message sent with these flags, if anything. */
  function Received(message: Json, encodeb64: bool, validJson: bool, loads: string -> Option<Json>): Json {
    if encodeb64 || !message.JStr? then JNull
    else if !validJson then message
    else if loads(message.s).Some? then loads(message.s).value
    else JNull
  }

  /**
   * What the other side gets back from each envelope of a `serialize` call: only a
   * string sent without `encodeb64` survives (parsed when `valid_json` is set); a
   * Base64 fragment, a batch and every fragment of a longer list give None.
   */
  lemma SerializeThenDeserialize(message: Json, encodeb64: bool, validJson: bool, isError: bool, token: string,
                                 max: int, origin: string, seqNo: int, loads: string -> Option<Json>)
    requires SerializeWith(message, encodeb64, validJson, isError, token, max, origin, seqNo).Ok?
    requires ReadsWire(loads)
    ensures var r := SerializeWith(message, encodeb64, validJson, isError, token, max, origin, seqNo).value;
      forall n :: 0 <= n < |r| ==> Deserialize(Wire(r[n]), loads) == Received(message, encodeb64, validJson, loads)
  {
    var r := SerializeWith(message, encodeb64, validJson, isError, token, max, origin, seqNo).value;
    forall n | 0 <= n < |r|
      ensures Deserialize(Wire(r[n]), loads) == Received(message, encodeb64, validJson, loads)
    {
      DeserializeEnvelope(r[n], loads);
      assert Payloads(r)[n] == r[n].data;
      if message.JArr? && validJson {
        BatchPath(message.items, encodeb64, isError, token, max, origin, seqNo);
      } else if !encodeb64 && message.JStr? {
        PlainPath(message.s, validJson, isError, token, max, origin, seqNo);
      }
    }
  }

  /** A string sent without flags comes back as the same string. */
  lemma PlainRoundTrip(s: string, isError: bool, token: string, max: int, origin: string, seqNo: int,
                       loads: string -> Option<Json>)
    requires ReadsWire(loads)
    ensures var r := SerializeWith(JStr(s), false, false, isError, token, max, origin, seqNo);
      r.Ok? && |r.value| == 1 && Deserialize(Wire(r.value[0]), loads) == JStr(s)
  {
    PlainPath(s, false, isError, token, max, origin, seqNo);
    SerializeThenDeserialize(JStr(s), false, false, isError, token, max, origin, seqNo, loads);
  }

  // ---------------------------------------------------------------------------
  // The objects

  /** The class attribute `_SEQ`: one counter shared by every serializer. */
  class SeqCounter {
    var value: int

    constructor ()
      ensures value == 0
    {
      value := 0;
    }
  }

  class Serializer {
    /** `self.id`, a fresh UUID4 text in the source. */
    const id: string
    /** The shared class-wide counter. */
    const counter: SeqCounter
    /** `_MAX_MESSAGE_LENGTH`, read as the class default until the setter gives the instance its own. */
    var maxMessageLength: int

    constructor (id: string, counter: SeqCounter)
      ensures this.id == id && this.counter == counter
      ensures maxMessageLength == DEFAULT_MAX_MESSAGE_LENGTH
    {
      this.id := id;
      this.counter := counter;
      maxMessageLength := DEFAULT_MAX_MESSAGE_LENGTH;
    }

    /** The `MAX_MESSAGE_LENGTH` getter. */
    function MaxMessageLength(): int
      reads this
    {
      maxMessageLength
    }

    /** The `MAX_MESSAGE_LENGTH` setter: it stores five more than it is given. */
    method SetMaxMessageLength(val: int)
      modifies this
      ensures MaxMessageLength() == val + 5
    {
      maxMessageLength := val + 5;
    }

    /** The `seq` property: the counter's value before an increment every serializer sees. */
    method Seq() returns (current: int)
      modifies counter
      ensures current == old(counter.value)
      ensures counter.value == old(counter.value) + 1
    {
      current := counter.value;
      counter.value := counter.value + 1;
    }

    /** `_naive_knapsack(objects)`: the greedy batcher's loop. */
    method NaiveKnapsack(objects: seq<Json>) returns (r: Result<seq<seq<Json>>, PackError>)
      ensures r == Pack(objects, MaxMessageLength())
    {
      var max := maxMessageLength;
      var messages: seq<seq<Json>> := [];
      var current: seq<Json> := [];
      for i := 0 to |objects|
        invariant i < |objects| ==> Run(objects[..i], max) == Ok(Packing(messages, current))
        invariant i == |objects| ==> Pack(objects, max) == Ok(messages)
      {
        var obj := objects[i];
        assert objects[..i + 1][..i] == objects[..i];
        var l := ListLen([obj] + current);
        if l < max && Truthy(obj) {
          current := current + [obj];
        } else if l >= max {
          messages := messages + [current];
          if Len(obj) > max {
            RunErrExtends(objects, i + 1, max);
            return Err(OversizeObject(obj));
          }
          current := [obj];
        }
        if i == |objects| - 1 && |current| != 0 {
          messages := messages + [current];
        }
        if i + 1 == |objects| {
          assert objects[..i + 1] == objects;
        }
      }
      r := Ok(messages);
    }

    /** `serialize(message, encodeb64, valid_json, is_error, token)`; a refused message leaves the counter alone. */
    method Serialize(message: Json, encodeb64: bool, validJson: bool, isError: bool, token: string)
      returns (r: Result<seq<Envelope>, SerializeError>)
      modifies counter
      ensures r == SerializeWith(message, encodeb64, validJson, isError, token, MaxMessageLength(), id, old(counter.value))
      ensures counter.value == if r.Ok? then old(counter.value) + 1 else old(counter.value)
    {
      var fragments: seq<Json>;
      if encodeb64 && !validJson {
        if !(message.JArr? || message.JStr?) {
          return Err(NoEncodeMethod);
        }
        var f := Base64Fragments(Base64Source(message), maxMessageLength);
        if f.Err? {
          return Err(f.error);
        }
        fragments := f.value;
      } else if message.JArr? && validJson {
        var packed := NaiveKnapsack(message.items);
        if packed.Err? {
          return Err(ObjectTooLong(packed.error.obj));
        }
        fragments := Batches(packed.value);
      } else if !encodeb64 && message.JStr? {
        fragments := [message];
      } else if !validJson {
        return Err(TypeMustBeStr);
      } else {
        return Err(IncorrectDataType);
      }
      var currentSeq := Seq();
      r := Ok(Build(fragments, Stamp(currentSeq, encodeb64, validJson, isError, token, id)));
    }
  }

  /** Two serializers built on one counter draw consecutive sequence numbers. */
  method SharedSequence() returns (first: int, second: int)
    ensures first == 0 && second == 1
  {
    var counter := new SeqCounter();
    var a := new Serializer("a", counter);
    var b := new Serializer("b", counter);
    var ra := a.Serialize(JStr("x"), false, false, false, "");
    var rb := b.Serialize(JStr("y"), false, false, false, "");
    first := ra.value[0].seqNo;
    second := rb.value[0].seqNo;
  }
}
