/**
 * Base64 with the alphabet of section 4 of RFC 4648 (`A`-`Z`, `a`-`z`, `0`-`9`, `+`, `/`)
 * and `=` padding, as Python's `base64.b64encode` writes it: every three bytes become
 * four characters, and a final group of one or two bytes is padded to four.
 */
module Base64 {
  import opened Wrappers
  import opened Utf8

  /** The character for a 6-bit value. */
  function CharOf(i: nat): (c: char)
    requires i < 64
  {
    if i < 26 then ('A' as int + i) as char
    else if i < 52 then ('a' as int + i - 26) as char
    else if i < 62 then ('0' as int + i - 52) as char
    else if i == 62 then '+'
    else '/'
  }

  /** The 6-bit value of an alphabet character. */
  function IndexOf(c: char): Option<nat> {
    if 'A' <= c <= 'Z' then Some(c as int - 'A' as int)
    else if 'a' <= c <= 'z' then Some(c as int - 'a' as int + 26)
    else if '0' <= c <= '9' then Some(c as int - '0' as int + 52)
    else if c == '+' then Some(62)
    else if c == '/' then Some(63)
    else None
  }

  predicate IsAlphabet(c: char) {
    IndexOf(c).Some?
  }

  lemma IndexOfCharOf(i: nat)
    requires i < 64
    ensures IndexOf(CharOf(i)) == Some(i)
  {
  }

  /** Four characters for three bytes. */
  function EncodeGroup(b0: byte, b1: byte, b2: byte): (r: string)
    ensures |r| == 4
  {
    [CharOf(b0 / 4), CharOf(b0 % 4 * 16 + b1 / 16), CharOf(b1 % 16 * 4 + b2 / 64), CharOf(b2 % 64)]
  }

  /** Four characters, padded with `=`, for a final group of one or two bytes. */
  function EncodeTail(bs: seq<byte>): (r: string)
    requires 1 <= |bs| <= 2
    ensures |r| == 4
  {
    if |bs| == 1 then [CharOf(bs[0] / 4), CharOf(bs[0] % 4 * 16), '=', '=']
    else [CharOf(bs[0] / 4), CharOf(bs[0] % 4 * 16 + bs[1] / 16), CharOf(bs[1] % 16 * 4), '=']
  }

  /** `base64.b64encode`, read as text. */
  function Encode(bs: seq<byte>): (r: string)
    decreases |bs|
  {
    if |bs| == 0 then ""
    else if |bs| <= 2 then EncodeTail(bs)
    else EncodeGroup(bs[0], bs[1], bs[2]) + Encode(bs[3..])
  }

  /** The bytes of one group of four characters; padding is accepted only in the final group. */
  function DecodeGroup(q: string, final: bool): Option<seq<byte>>
    requires |q| == 4
  {
    var v0, v1, v2, v3 := IndexOf(q[0]), IndexOf(q[1]), IndexOf(q[2]), IndexOf(q[3]);
    if v0.None? || v1.None? then None
    else if final && q[2] == '=' && q[3] == '=' then
      Some([v0.value * 4 + v1.value / 16])
    else if v2.None? then None
    else if final && q[3] == '=' then
      Some([v0.value * 4 + v1.value / 16, v1.value % 16 * 16 + v2.value / 4])
    else if v3.None? then None
    else Some([v0.value * 4 + v1.value / 16, v1.value % 16 * 16 + v2.value / 4, v2.value % 4 * 64 + v3.value])
  }

  /** Decoding of well-formed padded Base64 text; None for anything else. */
  function Decode(s: string): Option<seq<byte>>
    decreases |s|
  {
    if s == [] then Some([])
    else if |s| < 4 then None
    else
      match DecodeGroup(s[..4], |s| == 4)
      case None => None
      case Some(g) =>
        match Decode(s[4..])
        case None => None
        case Some(rest) => Some(g + rest)
  }

  /** Every three bytes take four characters; a partial final group is padded to four. */
  lemma {:induction false} EncodeLength(bs: seq<byte>)
    ensures |Encode(bs)| == 4 * ((|bs| + 2) / 3)
    decreases |bs|
  {
    if |bs| > 2 {
      EncodeLength(bs[3..]);
      assert (|bs| + 2) / 3 == (|bs[3..]| + 2) / 3 + 1;
    }
  }

  /** The text consists of alphabet characters and `=`. */
  lemma {:induction false} EncodeChars(bs: seq<byte>)
    ensures forall i :: 0 <= i < |Encode(bs)| ==> IsAlphabet(Encode(bs)[i]) || Encode(bs)[i] == '='
    decreases |bs|
  {
    if |bs| > 2 {
      EncodeChars(bs[3..]);
      IndexOfCharOf(bs[0] / 4);
      IndexOfCharOf(bs[0] % 4 * 16 + bs[1] / 16);
      IndexOfCharOf(bs[1] % 16 * 4 + bs[2] / 64);
      IndexOfCharOf(bs[2] % 64);
    } else if |bs| == 2 {
      IndexOfCharOf(bs[0] / 4);
      IndexOfCharOf(bs[0] % 4 * 16 + bs[1] / 16);
      IndexOfCharOf(bs[1] % 16 * 4);
    } else if |bs| == 1 {
      IndexOfCharOf(bs[0] / 4);
      IndexOfCharOf(bs[0] % 4 * 16);
    }
  }

  /** The arithmetic of one full group: the four 6-bit values give back the three bytes. */
  lemma GroupArithmetic(b0: byte, b1: byte, b2: byte)
    ensures var v1, v2 := b0 % 4 * 16 + b1 / 16, b1 % 16 * 4 + b2 / 64;
      b0 / 4 * 4 + v1 / 16 == b0 && v1 % 16 * 16 + v2 / 4 == b1 && v2 % 4 * 64 + b2 % 64 == b2
  {
  }

  lemma DecodeEncodeGroup(b0: byte, b1: byte, b2: byte, final: bool)
    ensures DecodeGroup(EncodeGroup(b0, b1, b2), final) == Some([b0, b1, b2])
  {
    IndexOfCharOf(b0 / 4);
    IndexOfCharOf(b0 % 4 * 16 + b1 / 16);
    IndexOfCharOf(b1 % 16 * 4 + b2 / 64);
    IndexOfCharOf(b2 % 64);
    GroupArithmetic(b0, b1, b2);
  }

  lemma DecodeEncodeTail(bs: seq<byte>)
    requires 1 <= |bs| <= 2
    ensures DecodeGroup(EncodeTail(bs), true) == Some(bs)
  {
    if |bs| == 1 {
      assert bs == [bs[0]];
      DecodeEncodeOne(bs[0]);
    } else {
      assert bs == [bs[0], bs[1]];
      DecodeEncodeTwo(bs[0], bs[1]);
    }
  }

  lemma DecodeEncodeOne(b0: byte)
    ensures DecodeGroup(EncodeTail([b0]), true) == Some([b0])
  {
    IndexOfCharOf(b0 / 4);
    IndexOfCharOf(b0 % 4 * 16);
  }

  lemma DecodeEncodeTwo(b0: byte, b1: byte)
    ensures DecodeGroup(EncodeTail([b0, b1]), true) == Some([b0, b1])
  {
    IndexOfCharOf(b0 / 4);
    IndexOfCharOf(b0 % 4 * 16 + b1 / 16);
    IndexOfCharOf(b1 % 16 * 4);
    GroupArithmetic(b0, b1, 0);
  }

  /** Decoding a group followed by more text: the group's bytes, then the rest's. */
  lemma DecodeAppend(g: string, t: string)
    requires |g| == 4 && DecodeGroup(g, t == []).Some? && Decode(t).Some?
    ensures Decode(g + t) == Some(DecodeGroup(g, t == []).value + Decode(t).value)
  {
    var s := g + t;
    assert s[..4] == g && s[4..] == t;
  }

  /** Decoding what was encoded gives the bytes back. */
  lemma {:induction false} DecodeEncode(bs: seq<byte>)
    ensures Decode(Encode(bs)) == Some(bs)
    decreases |bs|
  {
    if 1 <= |bs| <= 2 {
      DecodeEncodeShort(bs);
    } else if |bs| > 2 {
      DecodeEncode(bs[3..]);
      DecodeEncodeLong(bs);
    }
  }

  lemma DecodeEncodeShort(bs: seq<byte>)
    requires 1 <= |bs| <= 2
    ensures Decode(Encode(bs)) == Some(bs)
  {
    var g := EncodeTail(bs);
    DecodeEncodeTail(bs);
    DecodeAppend(g, []);
    assert g + [] == g;
    assert bs + [] == bs;
  }

  lemma DecodeEncodeLong(bs: seq<byte>)
    requires |bs| > 2 && Decode(Encode(bs[3..])) == Some(bs[3..])
    ensures Decode(Encode(bs)) == Some(bs)
  {
    var rest := bs[3..];
    SplitGroup(bs);
    var g, t := EncodeGroup(bs[0], bs[1], bs[2]), Encode(rest);
    assert Encode(bs) == g + t;
    DecodeEncodeGroup(bs[0], bs[1], bs[2], t == []);
    DecodeAppend(g, t);
  }

  lemma SplitGroup(bs: seq<byte>)
    requires |bs| > 2
    ensures bs == [bs[0], bs[1], bs[2]] + bs[3..]
  {
  }
}
