/**
 * UTF-8, as Python's `str.encode('utf-8')` writes it and `bytes.decode('utf-8')`
 * (the strict error handler) reads it: a code point takes one to four bytes, and
 * decoding refuses overlong forms, surrogates, code points above U+10FFFF, stray
 * continuation bytes and truncated sequences.
 */
module Utf8 {
  import opened Wrappers

  type byte = b: int | 0 <= b < 256

  function EncodeChar(c: char): (r: seq<byte>)
    ensures 1 <= |r| <= 4
  {
    var n := c as int;
    if n < 0x80 then [n]
    else if n < 0x800 then [0xC0 + n / 0x40, 0x80 + n % 0x40]
    else if n < 0x10000 then [0xE0 + n / 0x1000, 0x80 + n / 0x40 % 0x40, 0x80 + n % 0x40]
    else [0xF0 + n / 0x40000, 0x80 + n / 0x1000 % 0x40, 0x80 + n / 0x40 % 0x40, 0x80 + n % 0x40]
  }

  function Encode(s: string): seq<byte> {
    if s == [] then [] else EncodeChar(s[0]) + Encode(s[1..])
  }

  predicate IsContinuation(b: byte) {
    0x80 <= b < 0xC0
  }

  /** The first character of `bs` and the number of bytes it takes, or None if `bs` does not start with a well-formed sequence. */
  function DecodeChar(bs: seq<byte>): (r: Option<(char, nat)>)
    requires |bs| > 0
    ensures r.Some? ==> 1 <= r.value.1 <= |bs| && r.value.1 <= 4
  {
    var b0: int := bs[0];
    if b0 < 0x80 then Some((b0 as char, 1))
    else if 0xC2 <= b0 < 0xE0 then
      if |bs| >= 2 && IsContinuation(bs[1]) then
        Some((Combine2(b0, bs[1]) as char, 2))
      else None
    else if 0xE0 <= b0 < 0xF0 then
      if |bs| >= 3 && IsContinuation(bs[1]) && IsContinuation(bs[2]) then
        var n := Combine3(b0, bs[1], bs[2]);
        if n < 0x800 || 0xD800 <= n < 0xE000 then None else Some((n as char, 3))
      else None
    else if 0xF0 <= b0 < 0xF5 then
      if |bs| >= 4 && IsContinuation(bs[1]) && IsContinuation(bs[2]) && IsContinuation(bs[3]) then
        var n := Combine4(b0, bs[1], bs[2], bs[3]);
        if n < 0x10000 || n > 0x10FFFF then None else Some((n as char, 4))
      else None
    else None
  }

  /** The code point carried by a two-, three- or four-byte sequence (lead byte bits, then six bits per continuation byte). */
  function Combine2(b0: int, b1: int): (n: int)
    requires 0xC2 <= b0 < 0xE0 && 0x80 <= b1 < 0xC0
    ensures 0x80 <= n < 0x800
  {
    (b0 - 0xC0) * 0x40 + (b1 - 0x80)
  }

  function Combine3(b0: int, b1: int, b2: int): (n: int)
    requires 0xE0 <= b0 < 0xF0 && 0x80 <= b1 < 0xC0 && 0x80 <= b2 < 0xC0
    ensures 0 <= n < 0x10000
  {
    (b0 - 0xE0) * 0x1000 + (b1 - 0x80) * 0x40 + (b2 - 0x80)
  }

  function Combine4(b0: int, b1: int, b2: int, b3: int): (n: int)
    requires 0xF0 <= b0 < 0xF5 && 0x80 <= b1 < 0xC0 && 0x80 <= b2 < 0xC0 && 0x80 <= b3 < 0xC0
    ensures 0 <= n < 0x140000
  {
    (b0 - 0xF0) * 0x40000 + (b1 - 0x80) * 0x1000 + (b2 - 0x80) * 0x40 + (b3 - 0x80)
  }

  /** `bytes.decode('utf-8')`: None where Python raises UnicodeDecodeError. */
  function Decode(bs: seq<byte>): Option<string>
    decreases |bs|
  {
    if bs == [] then Some("")
    else match DecodeChar(bs)
      case None => None
      case Some((c, k)) =>
        match Decode(bs[k..])
        case None => None
        case Some(rest) => Some([c] + rest)
  }

  lemma Split2(n: int)
    requires 0x80 <= n < 0x800
    ensures 0xC2 <= 0xC0 + n / 0x40 < 0xE0
    ensures Combine2(0xC0 + n / 0x40, 0x80 + n % 0x40) == n
  {
  }

  lemma Split3(n: int)
    requires 0x800 <= n < 0x10000
    ensures 0xE0 <= 0xE0 + n / 0x1000 < 0xF0 && 0 <= n / 0x40 % 0x40 < 0x40
    ensures Combine3(0xE0 + n / 0x1000, 0x80 + n / 0x40 % 0x40, 0x80 + n % 0x40) == n
  {
    var q := n / 0x40;
    assert n == q * 0x40 + n % 0x40;
    assert q / 0x40 == n / 0x1000;
    assert q == (q / 0x40) * 0x40 + q % 0x40;
  }

  lemma Split4(n: int)
    requires 0x10000 <= n < 0x110000
    ensures 0xF0 <= 0xF0 + n / 0x40000 < 0xF5 && 0 <= n / 0x1000 % 0x40 < 0x40 && 0 <= n / 0x40 % 0x40 < 0x40
    ensures Combine4(0xF0 + n / 0x40000, 0x80 + n / 0x1000 % 0x40, 0x80 + n / 0x40 % 0x40, 0x80 + n % 0x40) == n
  {
    var q := n / 0x40;
    var p := q / 0x40;
    assert n == q * 0x40 + n % 0x40;
    assert q == p * 0x40 + q % 0x40;
    assert p == (p / 0x40) * 0x40 + p % 0x40;
    assert p == n / 0x1000;
    assert p / 0x40 == n / 0x40000;
  }

  lemma EncodeCharDecodes(c: char, rest: seq<byte>)
    ensures DecodeChar(EncodeChar(c) + rest) == Some((c, |EncodeChar(c)|))
  {
    var n := c as int;
    var bs := EncodeChar(c) + rest;
    if n < 0x80 {
    } else if n < 0x800 {
      Split2(n);
      assert bs[0] == 0xC0 + n / 0x40 && bs[1] == 0x80 + n % 0x40;
    } else if n < 0x10000 {
      Split3(n);
      assert bs[0] == 0xE0 + n / 0x1000 && bs[1] == 0x80 + n / 0x40 % 0x40 && bs[2] == 0x80 + n % 0x40;
    } else {
      Split4(n);
      assert bs[0] == 0xF0 + n / 0x40000 && bs[1] == 0x80 + n / 0x1000 % 0x40;
      assert bs[2] == 0x80 + n / 0x40 % 0x40 && bs[3] == 0x80 + n % 0x40;
    }
  }

  /** Decoding what was encoded gives the string back. */
  lemma {:induction false} DecodeEncode(s: string)
    ensures Decode(Encode(s)) == Some(s)
  {
    if s != [] {
      var e := EncodeChar(s[0]);
      assert Encode(s) == e + Encode(s[1..]);
      EncodeCharDecodes(s[0], Encode(s[1..]));
      assert Encode(s)[|e|..] == Encode(s[1..]);
      DecodeEncode(s[1..]);
      assert [s[0]] + s[1..] == s;
    }
  }

  lemma Join2(b0: int, b1: int)
    requires 0xC2 <= b0 < 0xE0 && 0x80 <= b1 < 0xC0
    ensures Combine2(b0, b1) / 0x40 == b0 - 0xC0 && Combine2(b0, b1) % 0x40 == b1 - 0x80
  {
  }

  lemma Join3(b0: int, b1: int, b2: int)
    requires 0xE0 <= b0 < 0xF0 && 0x80 <= b1 < 0xC0 && 0x80 <= b2 < 0xC0
    ensures var n := Combine3(b0, b1, b2);
      n / 0x1000 == b0 - 0xE0 && n / 0x40 % 0x40 == b1 - 0x80 && n % 0x40 == b2 - 0x80
  {
    var n := Combine3(b0, b1, b2);
    assert n / 0x40 == (b0 - 0xE0) * 0x40 + (b1 - 0x80);
  }

  lemma Join4(b0: int, b1: int, b2: int, b3: int)
    requires 0xF0 <= b0 < 0xF5 && 0x80 <= b1 < 0xC0 && 0x80 <= b2 < 0xC0 && 0x80 <= b3 < 0xC0
    ensures var n := Combine4(b0, b1, b2, b3);
      n / 0x40000 == b0 - 0xF0 && n / 0x1000 % 0x40 == b1 - 0x80 &&
      n / 0x40 % 0x40 == b2 - 0x80 && n % 0x40 == b3 - 0x80
  {
    var n := Combine4(b0, b1, b2, b3);
    assert n / 0x40 == (b0 - 0xF0) * 0x1000 + (b1 - 0x80) * 0x40 + (b2 - 0x80);
    assert n / 0x1000 == (b0 - 0xF0) * 0x40 + (b1 - 0x80);
  }

  lemma DecodedCharEncodes(bs: seq<byte>)
    requires |bs| > 0 && DecodeChar(bs).Some?
    ensures EncodeChar(DecodeChar(bs).value.0) == bs[..DecodeChar(bs).value.1]
  {
    var b0: int := bs[0];
    if b0 < 0x80 {
    } else if b0 < 0xE0 {
      Join2(b0, bs[1]);
    } else if b0 < 0xF0 {
      Join3(b0, bs[1], bs[2]);
    } else {
      Join4(b0, bs[1], bs[2], bs[3]);
    }
  }

  /** One step of decoding: the first character, then the decoding of the bytes after it. */
  lemma DecodeStep(bs: seq<byte>)
    requires bs != [] && Decode(bs).Some?
    ensures DecodeChar(bs).Some?
    ensures var k := DecodeChar(bs).value.1;
      Decode(bs[k..]).Some? && Decode(bs).value == [DecodeChar(bs).value.0] + Decode(bs[k..]).value
  {
  }

  lemma EncodeCons(c: char, rest: string)
    ensures Encode([c] + rest) == EncodeChar(c) + Encode(rest)
  {
    var s := [c] + rest;
    assert s[0] == c && s[1..] == rest;
  }

  /** A byte string that decodes is the encoding of what it decodes to. */
  lemma {:induction false} EncodeDecode(bs: seq<byte>)
    requires Decode(bs).Some?
    ensures Encode(Decode(bs).value) == bs
    decreases |bs|
  {
    if bs != [] {
      DecodeStep(bs);
      var (c, k) := DecodeChar(bs).value;
      var rest := Decode(bs[k..]).value;
      DecodedCharEncodes(bs);
      EncodeDecode(bs[k..]);
      Reassemble(bs, k, c, rest);
    }
  }

  /** The encodings of a first character and of the rest, laid end to end, make up the bytes. */
  lemma Reassemble(bs: seq<byte>, k: nat, c: char, rest: string)
    requires k <= |bs| && EncodeChar(c) == bs[..k] && Encode(rest) == bs[k..]
    ensures Encode([c] + rest) == bs
  {
    EncodeCons(c, rest);
    assert bs == bs[..k] + bs[k..];
  }

  /** Text made of code points below U+0080 encodes one byte per character, each its code point. */
  lemma {:induction false} EncodeAscii(s: string)
    requires forall i :: 0 <= i < |s| ==> s[i] as int < 0x80
    ensures |Encode(s)| == |s|
    ensures forall i :: 0 <= i < |s| ==> Encode(s)[i] == s[i] as int
  {
    if s != [] {
      EncodeAscii(s[1..]);
    }
  }
}
