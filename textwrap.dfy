/**
 * The effect of Python's `textwrap.wrap(text, width)` on text that has nothing
 * textwrap could break a line at (its whitespace and hyphens): the text is one long
 * word, which is cut into pieces of exactly `width` characters and a shorter
 * remainder. A width below 1 makes textwrap raise ValueError.
 */
module TextWrap {
  import opened Wrappers
  import opened Seqs

  /** The characters textwrap splits words at: `\t \n \x0b \x0c \r`, space, and `-`. */
  predicate IsBreakChar(c: char) {
    c == '\t' || c == '\n' || c as int == 0x0B || c as int == 0x0C || c == '\r' || c == ' ' || c == '-'
  }

  predicate NoBreakChars(s: string) {
    forall i :: 0 <= i < |s| ==> !IsBreakChar(s[i])
  }

  datatype WrapError = InvalidWidth(width: int)

  /** Cuts `s` into consecutive pieces of `width` characters, the last one possibly shorter. */
  function Chunks(s: string, width: nat): (r: seq<string>)
    requires width > 0
    ensures Concat(r) == s
    ensures forall i :: 0 <= i < |r| ==> 0 < |r[i]| <= width
    ensures forall i :: 0 <= i < |r| - 1 ==> |r[i]| == width
    ensures |r| == 0 <==> s == []
    ensures |r| == 1 <==> 0 < |s| <= width
    decreases |s|
  {
    if s == [] then []
    else if |s| <= width then [s]
    else
      var rest := Chunks(s[width..], width);
      assert ([s[..width]] + rest)[1..] == rest;
      [s[..width]] + rest
  }

  /** `textwrap.wrap(text, width)` for text without break characters. */
  function Wrap(text: string, width: int): (r: Result<seq<string>, WrapError>)
    requires NoBreakChars(text)
    ensures r.Ok? <==> width > 0
    ensures r.Ok? ==> Concat(r.value) == text
    ensures r.Ok? ==> forall i :: 0 <= i < |r.value| - 1 ==> |r.value[i]| == width
    ensures r.Ok? ==> forall i :: 0 <= i < |r.value| ==> 0 < |r.value[i]| <= width
    ensures r.Ok? && |text| > width ==> |r.value| >= 2
  {
    if width <= 0 then Err(InvalidWidth(width)) else Ok(Chunks(text, width))
  }
}
