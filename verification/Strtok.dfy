/** `strtok`: the non-empty segments between delimiters, cut out of a buffer one by one. */
module Strtok {
  import opened CText

  /** The segments completed by `s` when `acc` has been read of the current one. */
  function SegmentsFrom(acc: string, s: string, delims: string): seq<string>
    decreases |s|
  {
    if s == "" then (if acc == "" then [] else [acc])
    else if s[0] !in delims then SegmentsFrom(acc + [s[0]], s[1..], delims)
    else (if acc == "" then [] else [acc]) + SegmentsFrom("", s[1..], delims)
  }

  ghost predicate AllIn(s: string, delims: string) { forall i :: 0 <= i < |s| ==> s[i] in delims }
  ghost predicate NoneIn(s: string, delims: string) { forall i :: 0 <= i < |s| ==> s[i] !in delims }

  function Segments(s: string, delims: string): seq<string>
  {
    SegmentsFrom("", s, delims)
  }

  lemma {:induction false} SegmentText(acc: string, text: string, s: string, delims: string)
    requires NoneIn(text, delims)
    ensures SegmentsFrom(acc, text + s, delims) == SegmentsFrom(acc + text, s, delims)
    decreases |text|
  {
    if text == "" {
      assert text + s == s && acc + text == acc;
    } else {
      assert (text + s)[0] == text[0] && (text + s)[1..] == text[1..] + s;
      assert acc + text == (acc + [text[0]]) + text[1..];
      SegmentText(acc + [text[0]], text[1..], s, delims);
    }
  }

  lemma {:induction false} SegmentSkip(run: string, s: string, delims: string)
    requires AllIn(run, delims)
    ensures Segments(run + s, delims) == Segments(s, delims)
  {
    if run == "" {
      assert run + s == s;
    } else {
      assert (run + s)[0] == run[0] && (run + s)[1..] == run[1..] + s;
      SegmentSkip(run[1..], s, delims);
      assert [] + Segments(run[1..] + s, delims) == Segments(run[1..] + s, delims);
    }
  }

  /** A run of delimiters, a text, and either the end or a delimiter. */
  lemma FirstSegment(run: string, text: string, rest: string, delims: string)
    requires AllIn(run, delims)
    requires NoneIn(text, delims)
    requires rest != "" ==> text != "" && rest[0] in delims
    ensures Segments(run + text + rest, delims) ==
            (if text == "" then [] else [text]) + (if rest == "" then [] else Segments(rest[1..], delims))
  {
    assert run + text + rest == run + (text + rest);
    SegmentSkip(run, text + rest, delims);
    SegmentText("", text, rest, delims);
    assert "" + text == text;
  }

  /** The same by cases. */
  lemma NextSegment(whole: string, run: string, text: string, rest: string, delims: string)
    requires whole == run + text + rest && AllIn(run, delims) && NoneIn(text, delims)
    requires rest != "" ==> text != "" && rest[0] in delims
    ensures text == "" ==> Segments(whole, delims) == [] && rest == ""
    ensures text != "" ==>
              var ts := Segments(whole, delims);
              ts != [] && ts[0] == text && ts[1..] == Segments(if rest == "" then "" else rest[1..], delims)
  {
    FirstSegment(run, text, rest, delims);
  }

  // ----- where a segment stands -----

  /** The token stands in the text between delimiters or the ends. */
  ghost predicate Stands(text: string, delims: string, pre: string, token: string, post: string)
  {
    text == pre + token + post && token != "" && NoneIn(token, delims) &&
    (pre != "" ==> Last(pre) in delims) && (post != "" ==> post[0] in delims)
  }

  /** A delimiter ends what is in front of it. */
  lemma {:induction false} SegmentsAppend(acc: string, pre: string, s: string, delims: string)
    requires pre != "" && Last(pre) in delims
    ensures SegmentsFrom(acc, pre + s, delims) == SegmentsFrom(acc, pre, delims) + Segments(s, delims)
    decreases |pre|
  {
    var first := if acc == "" then [] else [acc];
    assert (pre + s)[0] == pre[0] && (pre + s)[1..] == pre[1..] + s;
    if |pre| == 1 {
      assert pre[1..] == "" && pre[1..] + s == s;
      assert first + SegmentsFrom("", "", delims) == first;
    } else if pre[0] in delims {
      SegmentsAppend("", pre[1..], s, delims);
      var before := SegmentsFrom("", pre[1..], delims);
      assert first + (before + Segments(s, delims)) == (first + before) + Segments(s, delims);
    } else {
      SegmentsAppend(acc + [pre[0]], pre[1..], s, delims);
    }
  }

  lemma TokenAndMore(token: string, post: string, delims: string)
    requires token != "" && NoneIn(token, delims) && (post != "" ==> post[0] in delims)
    ensures Segments(token + post, delims) == [token] + Segments(post, delims)
  {
    FirstSegment("", token, post, delims);
    assert "" + token + post == token + post;
    if post != "" {
      assert post == [post[0]] + post[1..];
      SegmentSkip([post[0]], post[1..], delims);
    }
  }

  /** The segments of a text are those in front of a token, the token, and those behind it. */
  lemma SegmentsAround(text: string, delims: string, pre: string, token: string, post: string)
    requires Stands(text, delims, pre, token, post)
    ensures Segments(text, delims) == Segments(pre, delims) + [token] + Segments(post, delims)
  {
    TokenAndMore(token, post, delims);
    assert text == pre + (token + post);
    if pre == "" {
      assert text == token + post;
    } else {
      SegmentsAppend("", pre, token + post, delims);
    }
  }

  /** The first word of a text that does not begin with a delimiter. */
  lemma {:induction false} FirstWord(text: string, delims: string) returns (word: string, rest: string)
    requires text != "" && text[0] !in delims
    ensures text == word + rest && word != "" && NoneIn(word, delims) && (rest != "" ==> rest[0] in delims)
  {
    if |text| == 1 || text[1] in delims {
      word, rest := [text[0]], text[1..];
    } else {
      var w;
      w, rest := FirstWord(text[1..], delims);
      word := [text[0]] + w;
    }
  }

  /** A word and a delimiter in front move a token on. */
  lemma BehindWord(word: string, rest: string, delims: string, p: string, token: string, post: string)
    requires word != "" && NoneIn(word, delims) && rest != "" && rest[0] in delims
    requires Stands(rest, delims, p, token, post)
    ensures Stands(word + rest, delims, word + p, token, post)
    ensures |Segments(word + p, delims)| == 1 + |Segments(p, delims)|
  {
    assert rest[0] == (p + token + post)[0];
    assert p != "" && p[0] == rest[0];
    TokenAndMore(word, p, delims);
    assert word + rest == word + p + token + post && Last(word + p) == Last(p);
  }

  /** So does a delimiter. */
  lemma BehindDelimiter(c: char, rest: string, delims: string, p: string, token: string, post: string)
    requires c in delims && Stands(rest, delims, p, token, post)
    ensures Stands([c] + rest, delims, [c] + p, token, post) && Segments([c] + p, delims) == Segments(p, delims)
  {
    SegmentSkip([c], p, delims);
    assert [c] + rest == [c] + p + token + post && Last([c] + p) == if p == "" then c else Last(p);
  }

  /** Every segment stands somewhere, behind the segments before it. */
  lemma {:induction false} SegmentStands(text: string, delims: string, k: nat) returns (pre: string, post: string)
    requires k < |Segments(text, delims)|
    ensures Stands(text, delims, pre, Segments(text, delims)[k], post) && |Segments(pre, delims)| == k
    decreases |text|
  {
    if text[0] in delims {
      SegmentSkip([text[0]], text[1..], delims);
      assert text == [text[0]] + text[1..];
      pre, post := SegmentStands(text[1..], delims, k);
      BehindDelimiter(text[0], text[1..], delims, pre, Segments(text, delims)[k], post);
      pre := [text[0]] + pre;
    } else {
      var word, rest := FirstWord(text, delims);
      TokenAndMore(word, rest, delims);
      if k == 0 {
        pre, post := "", rest;
        assert text == "" + word + rest;
      } else {
        pre, post := SegmentStands(rest, delims, k - 1);
        BehindWord(word, rest, delims, pre, Segments(rest, delims)[k - 1], post);
        pre := word + pre;
      }
    }
  }

  /** The scan of a buffer; `pos` is where the next call goes on. */
  class Scan {
    const buf: array<char>
    var pos: nat
    ghost var end: nat

    ghost predicate Valid()
      reads this, buf
    {
      pos <= end < buf.Length && buf[end] == NUL && forall i :: pos <= i < end ==> buf[i] != NUL
    }

    ghost function Rest(): string
      requires Valid()
      reads this, buf
    {
      buf[pos..end]
    }

    /** `strtok(buf, ...)` starts at the front. */
    constructor (buf: array<char>, ghost text: string)
      requires StringAt(buf[..], 0, text)
      ensures Valid() && this.buf == buf && Rest() == text
    {
      this.buf, this.pos, this.end := buf, 0, |text|;
      assert forall i :: 0 <= i < |text| ==> buf[i] == buf[..][0..|text|][i] == text[i];
    }

    method Next(delims: string) returns (tok: Option<nat>)
      requires Valid() && NUL !in delims
      modifies this`pos, buf
      ensures Valid()
      ensures var ts := Segments(old(Rest()), delims);
              if ts == [] then tok.None? && Segments(Rest(), delims) == []
              else tok.Some? && StringAt(buf[..], tok.value, ts[0]) && Segments(Rest(), delims) == ts[1..] &&
                   |Rest()| < |old(Rest())|
    {
      ghost var whole := Rest();
      ghost var run, text, rest;
      var start, i;
      start, i, run, text, rest := FindToken(delims);
      NextSegment(whole, run, text, rest, delims);
      if start == i {
        pos := i;
        return None;
      }
      EndToken(start, i, text);
      tok := Some(start);
    }

    /** Ends the token at i, unless it ends with the line. */
    method EndToken(start: nat, i: nat, ghost text: string)
      requires Valid() && pos <= start <= i <= end && text == buf[start..i] && NulFree(text)
      modifies this`pos, buf
      ensures Valid() && StringAt(buf[..], start, text)
      ensures Rest() == if i == end then "" else old(buf[i + 1..end])
    {
      if buf[i] == NUL {
        pos := i;
      } else {
        buf[i] := NUL;
        pos := i + 1;
      }
      assert buf[start..i] == text;
    }

    /** Where the next token starts, behind the delimiters, and where it ends. */
    method FindToken(delims: string)
      returns (start: nat, i: nat, ghost run: string, ghost text: string, ghost rest: string)
      requires Valid() && NUL !in delims
      ensures pos <= start <= i <= end && run == buf[pos..start] && text == buf[start..i] && rest == buf[i..end]
      ensures Rest() == run + text + rest && AllIn(run, delims) && NoneIn(text, delims) && NulFree(text)
      ensures rest != "" ==> text != "" && rest[0] in delims && rest[1..] == buf[i + 1..end]
    {
      start := pos;
      while buf[start] != NUL && buf[start] in delims
        invariant pos <= start <= end
        invariant AllIn(buf[pos..start], delims)
        decreases end - start
      {
        start := start + 1;
      }
      i := start;
      while buf[i] != NUL && buf[i] !in delims
        invariant start <= i <= end
        invariant NoneIn(buf[start..i], delims)
        decreases end - i
      {
        i := i + 1;
      }
      run, text, rest := buf[pos..start], buf[start..i], buf[i..end];
    }
  }
}
