/**
 * `filter_html_tags`: `re.sub(r'<.*?>', '', text)`. Scanning from the left, a `<`
 * starts a tag when a `>` follows it before any line break (`.` does not match a
 * line break); the lazy `.*?` makes the tag end at the first such `>`. Each tag is
 * removed and the scan goes on after it; every other character is kept.
 */
module Tags {
  import opened Seqs

  /** Where the lazy `.*?>` stops looking: at a `>`, or at a line break it cannot cross. */
  predicate IsStop(c: char) {
    c == '>' || c == '\n'
  }

  /** The first index at or after `i` holding a stop character, or `|t|` if there is none. */
  function StopAt(t: string, i: nat): (r: nat)
    requires i <= |t|
    ensures i <= r <= |t|
    ensures forall k :: i <= k < r ==> !IsStop(t[k])
    ensures r < |t| ==> IsStop(t[r])
    decreases |t| - i
  {
    if i == |t| || IsStop(t[i]) then i else StopAt(t, i + 1)
  }

  /** A tag starts at `i`: a `<` followed by a `>` before any line break. */
  predicate TagAt(t: string, i: nat)
    requires i < |t|
  {
    t[i] == '<' && StopAt(t, i + 1) < |t| && t[StopAt(t, i + 1)] == '>'
  }

  /** No tag starts anywhere in `t`. */
  predicate TagFree(t: string) {
    forall i :: 0 <= i < |t| ==> !TagAt(t, i)
  }

  /** `filter_html_tags(text)`. */
  function FilterHtmlTags(t: string): string
    decreases |t|
  {
    if t == [] then []
    else if TagAt(t, 0) then FilterHtmlTags(t[StopAt(t, 1) + 1..])
    else [t[0]] + FilterHtmlTags(t[1..])
  }

  /** The stop index is the only index with the properties of its contract. */
  lemma {:induction false} StopAtUnique(t: string, i: nat, r: nat)
    requires i <= r <= |t|
    requires forall k :: i <= k < r ==> !IsStop(t[k])
    requires r == |t| || IsStop(t[r])
    ensures StopAt(t, i) == r
    decreases r - i
  {
    if i < r {
      StopAtUnique(t, i + 1, r);
    }
  }

  /** Dropping the first character shifts every stop index by one. */
  lemma StopAtShift(t: string, i: nat)
    requires 1 <= i <= |t|
    ensures StopAt(t, i) == StopAt(t[1..], i - 1) + 1
  {
    var r := StopAt(t[1..], i - 1);
    assert forall k :: i <= k < r + 1 ==> t[k] == t[1..][k - 1];
    StopAtUnique(t, i, r + 1);
  }

  /** Tags of `t` after its first character are the tags of `t[1..]`, one place on. */
  lemma TagAtShift(t: string, i: nat)
    requires 1 <= i < |t|
    ensures TagAt(t, i) <==> TagAt(t[1..], i - 1)
  {
    StopAtShift(t, i + 1);
  }

  /** A tag-free text is left as it is. */
  lemma {:induction false} TagFreeUnchanged(t: string)
    requires TagFree(t)
    ensures FilterHtmlTags(t) == t
    decreases |t|
  {
    if t != [] {
      assert !TagAt(t, 0);
      forall i | 0 <= i < |t[1..]| ensures !TagAt(t[1..], i) {
        TagAtShift(t, i + 1);
      }
      TagFreeUnchanged(t[1..]);
      assert [t[0]] + t[1..] == t;
    }
  }

  /**
   * Up to the first stop character at `q`, which is a line break or the end, no tag
   * can end, so that stretch is kept as it is.
   */
  lemma {:induction false} KeepsUpToLineBreak(u: string, q: nat)
    requires q <= |u|
    requires forall k :: 0 <= k < q ==> !IsStop(u[k])
    requires q == |u| || u[q] == '\n'
    ensures FilterHtmlTags(u) == u[..q] + FilterHtmlTags(u[q..])
    decreases q
  {
    if q > 0 {
      var v := u[1..];
      StopAtUnique(u, 1, q);
      assert FilterHtmlTags(u) == [u[0]] + FilterHtmlTags(v);
      assert forall k :: 0 <= k < q - 1 ==> v[k] == u[k + 1];
      KeepsUpToLineBreak(v, q - 1);
      assert v[q - 1..] == u[q..];
      GlueKept(u, q, FilterHtmlTags(u[q..]));
    }
  }

  lemma GlueKept(u: string, q: nat, rest: string)
    requires 0 < q <= |u|
    ensures [u[0]] + (u[1..][..q - 1] + rest) == u[..q] + rest
  {
    assert u[..q] == [u[0]] + u[1..][..q - 1];
  }

  /** A `<` put before a tag-free text whose first stop is not a `>` starts no tag. */
  lemma TagFreeCons(c: char, s: string)
    requires TagFree(s)
    requires c == '<' ==> StopAt(s, 0) == |s| || s[StopAt(s, 0)] != '>'
    ensures TagFree([c] + s)
  {
    var t := [c] + s;
    assert t[1..] == s;
    forall i | 0 <= i < |t| ensures !TagAt(t, i) {
      if i == 0 {
        StopAtShift(t, 1);
      } else {
        TagAtShift(t, i);
      }
    }
  }

  /** What the filter leaves holds no tag. */
  lemma {:induction false} FilteredIsTagFree(t: string)
    ensures TagFree(FilterHtmlTags(t))
    decreases |t|
  {
    if t == [] {
    } else if TagAt(t, 0) {
      FilteredIsTagFree(t[StopAt(t, 1) + 1..]);
    } else {
      var u := t[1..];
      var s := FilterHtmlTags(u);
      FilteredIsTagFree(u);
      if t[0] == '<' {
        var q := StopAt(t, 1) - 1;
        assert forall k :: 0 <= k < q ==> u[k] == t[k + 1];
        KeepsUpToLineBreak(u, q);
        if q < |u| {
          var w := u[q + 1..];
          assert u[q..] == ['\n'] + w;
          assert u[q..][1..] == w;
          assert FilterHtmlTags(u[q..]) == ['\n'] + FilterHtmlTags(w);
          assert s == u[..q] + (['\n'] + FilterHtmlTags(w));
          assert s[q] == '\n';
          StopAtUnique(s, 0, q);
        } else {
          assert u[q..] == [];
          assert s == u[..q];
          StopAtUnique(s, 0, q);
        }
      }
      TagFreeCons(t[0], s);
    }
  }

  /** The filter changes a text exactly when a tag starts somewhere in it, and filtering twice is filtering once. */
  lemma FilterFixedPoints(t: string)
    ensures FilterHtmlTags(t) == t <==> TagFree(t)
    ensures FilterHtmlTags(FilterHtmlTags(t)) == FilterHtmlTags(t)
  {
    FilteredIsTagFree(t);
    TagFreeUnchanged(FilterHtmlTags(t));
    if TagFree(t) {
      TagFreeUnchanged(t);
    }
  }

  /** A text without `<`, or without `>`, holds no tag and is left as it is. */
  lemma NoBracketUnchanged(t: string)
    requires (forall i :: 0 <= i < |t| ==> t[i] != '<') || (forall i :: 0 <= i < |t| ==> t[i] != '>')
    ensures FilterHtmlTags(t) == t
  {
    TagFreeUnchanged(t);
  }

  /** The filter only removes characters: what it leaves is the text with some characters left out, in order. */
  lemma {:induction false} FilteredIsSubseq(t: string)
    ensures IsSubseq(FilterHtmlTags(t), t)
    decreases |t|
  {
    if t == [] {
    } else if TagAt(t, 0) {
      FilteredIsSubseq(t[StopAt(t, 1) + 1..]);
      SubseqOfSuffix(FilterHtmlTags(t), t, StopAt(t, 1) + 1);
    } else {
      FilteredIsSubseq(t[1..]);
      SubseqConsBoth(FilterHtmlTags(t[1..]), t[1..], t[0]);
      assert [t[0]] + t[1..] == t;
    }
  }

  /** A markup pair is removed; a `<` whose `>` lies past a line break is kept. */
  lemma Examples()
    ensures FilterHtmlTags("<b>hi</b>") == "hi"
    ensures FilterHtmlTags("a<b\n>c") == "a<b\n>c"
  {
    var t := "<b>hi</b>";
    assert StopAt(t, 1) == 2;
    assert t[3..] == "hi</b>";
    var u := "</b>";
    assert StopAt(u, 1) == 3;
    assert FilterHtmlTags(u) == "";
    assert "hi</b>"[2..] == u;
    assert FilterHtmlTags("i</b>") == "i" by { assert "i</b>"[1..] == u; }
    assert FilterHtmlTags("hi</b>") == "hi" by { assert "hi</b>"[1..] == "i</b>"; }
    TagFreeUnchanged("a<b\n>c") by {
      assert TagFree("a<b\n>c") by {
        forall i | 0 <= i < 6 ensures !TagAt("a<b\n>c", i) {
          if i == 1 { assert StopAt("a<b\n>c", 2) == 3; }
        }
      }
    }
  }
}
