/**
 * JSON values and their text as Python's `json.dumps` writes it with the default
 * separators (", " between items, ": " after a key) and no indentation.
 *
 * `ensureAscii` is the `ensure_ascii` argument: when false (as in `_as_str`) only the
 * quote, the backslash and the C0 control characters are escaped, so the length of the
 * text counts code points; when true (the default) every character outside
 * printable ASCII is written as a `\uXXXX` escape, astral characters as a UTF-16
 * surrogate pair.
 */
module Json {

  datatype Json =
    | JNull
    | JBool(b: bool)
    | JInt(i: int)
    | JStr(s: string)
    | JArr(items: seq<Json>)
    | JObj(members: seq<Member>)

  /** One key/value pair of a JSON object, in insertion order. */
  datatype Member = Member(key: string, value: Json)

  /** Python's truth value of the decoded value: None, False, 0, "", [] and {} are false. */
  predicate Truthy(v: Json) {
    match v
    case JNull => false
    case JBool(b) => b
    case JInt(i) => i != 0
    case JStr(s) => s != []
    case JArr(items) => items != []
    case JObj(ms) => ms != []
  }

  // ---------------------------------------------------------------------------
  // Numbers

  function DecimalDigit(d: nat): (c: char)
    requires d < 10
    ensures '0' <= c <= '9'
  {
    ('0' as int + d) as char
  }

  /** The number a string of decimal digits spells, most significant digit first. */
  function DigitsValue(s: string): int {
    if s == [] then 0 else DigitsValue(s[..|s| - 1]) * 10 + (s[|s| - 1] as int - '0' as int)
  }

  /** Decimal text of a natural number, most significant digit first, as `str` writes it: no leading zero. */
  function NatText(n: nat): (r: string)
    ensures |r| >= 1
    ensures forall i :: 0 <= i < |r| ==> '0' <= r[i] <= '9'
    ensures DigitsValue(r) == n
    ensures r[0] == '0' ==> r == "0"
  {
    if n < 10 then [DecimalDigit(n)] else NatText(n / 10) + [DecimalDigit(n % 10)]
  }

  /** `str(i)` for a Python int. */
  function IntText(i: int): (r: string)
    ensures |r| >= 1
  {
    if i < 0 then "-" + NatText(-i) else NatText(i)
  }

  // ---------------------------------------------------------------------------
  // Strings

  function HexDigit(d: nat): (c: char)
    requires d < 16
    ensures 0x20 <= c as int < 0x7F
  {
    if d < 10 then ('0' as int + d) as char else ('a' as int + d - 10) as char
  }

  /** `\uXXXX` with four lower-case hexadecimal digits, as json.encoder writes it. */
  function UnicodeEscape(n: nat): (r: string)
    requires n < 0x10000
    ensures |r| == 6
  {
    "\\u" + [HexDigit(n / 0x1000), HexDigit(n / 0x100 % 16), HexDigit(n / 0x10 % 16), HexDigit(n % 16)]
  }

  /** How one character of a string is written inside the quotes. */
  function EscapeChar(c: char, ensureAscii: bool): string {
    var n := c as int;
    if c == '\\' then "\\\\"
    else if c == '"' then "\\\""
    else if n == 0x08 then "\\b"
    else if n == 0x0C then "\\f"
    else if c == '\n' then "\\n"
    else if c == '\r' then "\\r"
    else if c == '\t' then "\\t"
    else if n < 0x20 then UnicodeEscape(n)
    else if !ensureAscii || n < 0x7F then [c]
    else if n < 0x10000 then UnicodeEscape(n)
    else UnicodeEscape(0xD800 + (n - 0x10000) / 0x400) + UnicodeEscape(0xDC00 + (n - 0x10000) % 0x400)
  }

  function EscapeString(s: string, ensureAscii: bool): string {
    if s == [] then "" else EscapeChar(s[0], ensureAscii) + EscapeString(s[1..], ensureAscii)
  }

  function Quote(s: string, ensureAscii: bool): string {
    "\"" + EscapeString(s, ensureAscii) + "\""
  }

  // ---------------------------------------------------------------------------
  // Values

  function Dumps(v: Json, ensureAscii: bool): string
    decreases v, 1
  {
    match v
    case JNull => "null"
    case JBool(b) => if b then "true" else "false"
    case JInt(i) => IntText(i)
    case JStr(s) => Quote(s, ensureAscii)
    case JArr(items) => "[" + DumpsItems(items, ensureAscii) + "]"
    case JObj(ms) => "{" + DumpsMembers(ms, ensureAscii) + "}"
  }

  /** The items of a list, separated by ", ". */
  function DumpsItems(items: seq<Json>, ensureAscii: bool): string
    decreases items, 0
  {
    if items == [] then ""
    else if |items| == 1 then Dumps(items[0], ensureAscii)
    else DumpsItems(items[..|items| - 1], ensureAscii) + ", " + Dumps(items[|items| - 1], ensureAscii)
  }

  /** The members of an object, separated by ", ", each as `"key": value`. */
  function DumpsMembers(ms: seq<Member>, ensureAscii: bool): string
    decreases ms, 0
  {
    if ms == [] then ""
    else if |ms| == 1 then DumpsMember(ms[0], ensureAscii)
    else DumpsMembers(ms[..|ms| - 1], ensureAscii) + ", " + DumpsMember(ms[|ms| - 1], ensureAscii)
  }

  function DumpsMember(m: Member, ensureAscii: bool): string
    decreases m, 0
  {
    Quote(m.key, ensureAscii) + ": " + Dumps(m.value, ensureAscii)
  }

  // ---------------------------------------------------------------------------
  // Length of a serialized list

  /** The sum of the serialized lengths of the items. */
  function SumLen(items: seq<Json>, ensureAscii: bool): nat {
    if items == [] then 0 else SumLen(items[..|items| - 1], ensureAscii) + |Dumps(items[|items| - 1], ensureAscii)|
  }

  lemma {:induction false} SumLenAppend(a: seq<Json>, b: seq<Json>, ensureAscii: bool)
    ensures SumLen(a + b, ensureAscii) == SumLen(a, ensureAscii) + SumLen(b, ensureAscii)
    decreases |b|
  {
    if b == [] {
      assert a + b == a;
    } else {
      var b' := b[..|b| - 1];
      assert (a + b)[..|a + b| - 1] == a + b';
      assert (a + b)[|a + b| - 1] == b[|b| - 1];
      SumLenAppend(a, b', ensureAscii);
    }
  }

  /**
   * The length of a serialized list of k >= 1 items is 2 for the brackets, the items'
   * own lengths, and 2 for each of the k - 1 separators; `[]` has length 2.
   */
  lemma {:induction false} ListLength(items: seq<Json>, ensureAscii: bool)
    ensures |Dumps(JArr(items), ensureAscii)| ==
            if items == [] then 2 else 2 + SumLen(items, ensureAscii) + 2 * (|items| - 1)
  {
    ItemsLength(items, ensureAscii);
  }

  lemma {:induction false} ItemsLength(items: seq<Json>, ensureAscii: bool)
    ensures |DumpsItems(items, ensureAscii)| ==
            if items == [] then 0 else SumLen(items, ensureAscii) + 2 * (|items| - 1)
    decreases |items|
  {
    if |items| > 1 {
      ItemsLength(items[..|items| - 1], ensureAscii);
    } else if |items| == 1 {
      assert items[..0] == [];
    }
  }

  // ---------------------------------------------------------------------------
  // With ensure_ascii=True the text is printable ASCII

  /** Every character lies in U+0020..U+007E. */
  predicate PrintableAscii(s: string) {
    forall i :: 0 <= i < |s| ==> 0x20 <= s[i] as int < 0x7F
  }

  lemma EscapeCharAscii(c: char)
    ensures PrintableAscii(EscapeChar(c, true))
  {
  }

  lemma {:induction false} EscapeStringAscii(s: string)
    ensures PrintableAscii(EscapeString(s, true))
  {
    if s != [] {
      EscapeCharAscii(s[0]);
      EscapeStringAscii(s[1..]);
    }
  }

  lemma NatTextAscii(n: nat)
    ensures PrintableAscii(NatText(n))
  {
  }

  lemma {:induction false} DumpsAscii(v: Json)
    ensures PrintableAscii(Dumps(v, true))
    decreases v, 1
  {
    match v
    case JNull =>
    case JBool(_) =>
    case JInt(i) => NatTextAscii(if i < 0 then -i else i);
    case JStr(s) => EscapeStringAscii(s);
    case JArr(items) => ItemsAscii(items);
    case JObj(ms) => MembersAscii(ms);
  }

  lemma {:induction false} ItemsAscii(items: seq<Json>)
    ensures PrintableAscii(DumpsItems(items, true))
    decreases items, 0
  {
    if |items| == 1 {
      DumpsAscii(items[0]);
    } else if |items| > 1 {
      ItemsAscii(items[..|items| - 1]);
      DumpsAscii(items[|items| - 1]);
    }
  }

  lemma {:induction false} MembersAscii(ms: seq<Member>)
    ensures PrintableAscii(DumpsMembers(ms, true))
    decreases ms, 0
  {
    if |ms| == 1 {
      MemberAscii(ms[0]);
    } else if |ms| > 1 {
      MembersAscii(ms[..|ms| - 1]);
      MemberAscii(ms[|ms| - 1]);
    }
  }

  lemma {:induction false} MemberAscii(m: Member)
    ensures PrintableAscii(DumpsMember(m, true))
    decreases m, 0
  {
    EscapeStringAscii(m.key);
    DumpsAscii(m.value);
  }
}
