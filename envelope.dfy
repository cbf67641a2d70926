/**
 * The wire envelope `serialize` stamps on every fragment: the fragment itself
 * (`data`), the call's sequence number, the fragment's index, the fragment count,
 * a last-fragment flag, the caller's flags, and the serializer instance's id.
 */
module Envelope {
  import opened Wrappers
  import opened Json

  /** The `encoding` field: the text "b64 utf-8", or Python's False. */
  datatype Encoding = B64Utf8 | NotEncoded

  datatype Envelope = Envelope(
    data: Json,
    seqNo: int,
    currentFragment: nat,
    totalFragments: nat,
    lastFragment: bool,
    encoded: bool,
    isValidJson: bool,
    encoding: Encoding,
    error: bool,
    token: string,
    origin: string)

  /** What one `serialize` call stamps on all of its envelopes. */
  datatype Stamp = Stamp(seqNo: int, encoded: bool, isValidJson: bool, error: bool, token: string, origin: string)

  /** The fragments carried by the envelopes, in order. */
  function Payloads(envs: seq<Envelope>): (r: seq<Json>)
    ensures |r| == |envs|
  {
    seq(|envs|, i requires 0 <= i < |envs| => envs[i].data)
  }

  /** The text of each fragment (the empty text for a fragment that is not a string). */
  function DataTexts(envs: seq<Envelope>): (r: seq<string>)
    ensures |r| == |envs|
  {
    seq(|envs|, i requires 0 <= i < |envs| => if envs[i].data.JStr? then envs[i].data.s else "")
  }

  /**
   * The fragmentation invariants of a list of envelopes: each knows its position and
   * the list's length, exactly the final one is flagged last, and the `encoding`
   * label agrees with the `encoded` flag.
   */
  predicate Indexed(envs: seq<Envelope>) {
    forall n :: 0 <= n < |envs| ==>
      envs[n].currentFragment == n && envs[n].totalFragments == |envs| &&
      (envs[n].lastFragment <==> n == |envs| - 1) &&
      (envs[n].encoding == B64Utf8 <==> envs[n].encoded)
  }

  /** Every envelope carries the call's stamp. */
  predicate Stamped(envs: seq<Envelope>, s: Stamp) {
    forall n :: 0 <= n < |envs| ==>
      envs[n].seqNo == s.seqNo && envs[n].encoded == s.encoded && envs[n].isValidJson == s.isValidJson &&
      envs[n].error == s.error && envs[n].token == s.token && envs[n].origin == s.origin
  }

  /** The list comprehension of `serialize`: one envelope per fragment. */
  function Build(fragments: seq<Json>, s: Stamp): (r: seq<Envelope>)
    ensures Payloads(r) == fragments
    ensures Indexed(r) && Stamped(r, s)
  {
    seq(|fragments|, n requires 0 <= n < |fragments| =>
      Envelope(fragments[n], s.seqNo, n, |fragments|, n == |fragments| - 1, s.encoded, s.isValidJson,
               if s.encoded then B64Utf8 else NotEncoded, s.error, s.token, s.origin))
  }

  /** The envelope as the JSON object the client publishes, keys in the order the source writes them. */
  function ToJson(e: Envelope): Json {
    JObj([
      Member("data", e.data),
      Member("seq", JInt(e.seqNo)),
      Member("current_fragment", JInt(e.currentFragment)),
      Member("total_fragments", JInt(e.totalFragments)),
      Member("last_fragment", JBool(e.lastFragment)),
      Member("encoded", JBool(e.encoded)),
      Member("is_valid_json", JBool(e.isValidJson)),
      Member("encoding", if e.encoding == B64Utf8 then JStr("b64 utf-8") else JBool(false)),
      Member("error", JBool(e.error)),
      Member("token", JStr(e.token)),
      Member("from", JStr(e.origin))
    ])
  }

  /** The text published for an envelope: `json.dumps` with its defaults. */
  function Wire(e: Envelope): string {
    Dumps(ToJson(e), true)
  }

  /** `packet[key]` on a decoded object: the value of the last member with that key (a decoded dict keeps the last duplicate). */
  function Lookup(ms: seq<Member>, key: string): (r: Option<Json>)
    ensures r.Some? <==> exists i :: 0 <= i < |ms| && ms[i].key == key
  {
    if ms == [] then None
    else if ms[|ms| - 1].key == key then Some(ms[|ms| - 1].value)
    else
      var r := Lookup(ms[..|ms| - 1], key);
      assert forall i :: 0 <= i < |ms| - 1 ==> ms[..|ms| - 1][i] == ms[i];
      r
  }

  /** The member found is the last one with the key. */
  lemma {:induction false} LookupLast(ms: seq<Member>, key: string, i: nat)
    requires i < |ms| && ms[i].key == key
    requires forall j :: i < j < |ms| ==> ms[j].key != key
    ensures Lookup(ms, key) == Some(ms[i].value)
    decreases |ms|
  {
    if i < |ms| - 1 {
      var prefix := ms[..|ms| - 1];
      assert forall j :: i < j < |prefix| ==> prefix[j] == ms[j];
      LookupLast(prefix, key, i);
    }
  }

  /** The envelope's fields are what a decoded envelope object yields under the source's key names. */
  lemma LookupFields(e: Envelope)
    ensures var ms := ToJson(e).members;
      Lookup(ms, "data") == Some(e.data) &&
      Lookup(ms, "total_fragments") == Some(JInt(e.totalFragments)) &&
      Lookup(ms, "encoded") == Some(JBool(e.encoded)) &&
      Lookup(ms, "is_valid_json") == Some(JBool(e.isValidJson))
  {
    LookupData(e);
    LookupFlags(e);
  }

  lemma LookupData(e: Envelope)
    ensures Lookup(ToJson(e).members, "data") == Some(e.data)
    ensures Lookup(ToJson(e).members, "total_fragments") == Some(JInt(e.totalFragments))
  {
    LookupLast(ToJson(e).members, "data", 0);
    LookupLast(ToJson(e).members, "total_fragments", 3);
  }

  lemma LookupFlags(e: Envelope)
    ensures Lookup(ToJson(e).members, "encoded") == Some(JBool(e.encoded))
    ensures Lookup(ToJson(e).members, "is_valid_json") == Some(JBool(e.isValidJson))
  {
    LookupLast(ToJson(e).members, "encoded", 5);
    LookupLast(ToJson(e).members, "is_valid_json", 6);
  }
}
