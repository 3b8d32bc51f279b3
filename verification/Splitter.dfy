/** What the bytes of a stream mean as lines, one byte at a time and so independently of how
    the stream is cut into reads. */
module Splitter {
  import opened CText

  predicate IsEol(c: char) { c == '\r' || c == '\n' }

  ghost predicate AllEols(s: string) { forall i :: 0 <= i < |s| ==> IsEol(s[i]) }
  ghost predicate NoEols(s: string) { forall i :: 0 <= i < |s| ==> !IsEol(s[i]) }

  /** The lines completed by `s` when `text` has already been received of the current one. */
  function LinesFrom(text: string, s: string): seq<string>
    decreases |s|
  {
    if s == "" then []
    else if !IsEol(s[0]) then LinesFrom(text + [s[0]], s[1..])
    else (if text == "" then [] else [text]) + LinesFrom("", s[1..])
  }

  /** The complete non-empty lines of a stream. */
  function Lines(s: string): seq<string> { LinesFrom("", s) }

  /** The unterminated text a stream ends in. */
  function TailFrom(text: string, s: string): string
    decreases |s|
  {
    if s == "" then text
    else TailFrom(if IsEol(s[0]) then "" else text + [s[0]], s[1..])
  }

  function Tail(s: string): string { TailFrom("", s) }

  /** A newline run together with the text after it stays shorter than `max`; `n` bytes of it
      have been received, with some text among them if `text`. */
  ghost predicate FitsFrom(n: nat, text: bool, s: string, max: nat)
    decreases |s|
  {
    n < max &&
    (s == "" ||
     if IsEol(s[0]) && text then FitsFrom(0, false, s[1..], max)
     else FitsFrom(n + 1, !IsEol(s[0]), s[1..], max))
  }

  ghost predicate Fits(s: string, max: nat) { FitsFrom(0, false, s, max) }

  /** No line starts with the SMS prompt. */
  ghost predicate PromptFreeFrom(start: bool, s: string)
    decreases |s|
  {
    s == "" ||
    (if IsEol(s[0]) then PromptFreeFrom(true, s[1..])
     else !(start && PROMPT <= s) && PromptFreeFrom(false, s[1..]))
  }

  ghost predicate PromptFree(s: string) { PromptFreeFrom(true, s) }

  // ----- a newline run, a text, and the newline that ends it -----

  lemma {:induction false} SkipRun(run: string, s: string, n: nat, max: nat)
    requires AllEols(run)
    ensures Lines(run + s) == Lines(s) && Tail(run + s) == Tail(s)
    ensures PromptFree(run + s) == PromptFree(s)
    ensures FitsFrom(n, false, run + s, max) ==> FitsFrom(n + |run|, false, s, max)
  {
    if run == "" {
      assert run + s == s;
    } else {
      assert (run + s)[1..] == run[1..] + s;
      assert (run + s)[0] == run[0];
      SkipRun(run[1..], s, n + 1, max);
    }
  }

  lemma {:induction false} TakeText(before: string, text: string, s: string, n: nat, started: bool, max: nat)
    requires NoEols(text)
    ensures LinesFrom(before, text + s) == LinesFrom(before + text, s)
    ensures TailFrom(before, text + s) == TailFrom(before + text, s)
    ensures FitsFrom(n, started, text + s, max) ==> FitsFrom(n + |text|, started || text != "", s, max)
    ensures PromptFreeFrom(false, text + s) == PromptFreeFrom(false, s)
    decreases |text|
  {
    if text == "" {
      assert text + s == s && before + text == before;
    } else {
      assert (text + s)[1..] == text[1..] + s;
      assert (text + s)[0] == text[0];
      assert before + text == (before + [text[0]]) + text[1..];
      TakeText(before + [text[0]], text[1..], s, n + 1, true, max);
    }
  }

  /** The first complete line of a stream. */
  lemma FirstLine(run: string, text: string, eol: char, rest: string, max: nat)
    requires AllEols(run) && NoEols(text) && text != "" && IsEol(eol)
    ensures var s := run + text + [eol] + rest;
            Lines(s) == [text] + Lines(rest) && Tail(s) == Tail(rest) &&
            (Fits(s, max) ==> Fits(rest, max)) &&
            (PromptFree(s) ==> PromptFree(rest) && !(PROMPT <= text))
  {
    var r := [eol] + rest;
    var s := run + text + [eol] + rest;
    assert s == run + (text + r);
    SkipRun(run, text + r, 0, max);
    TakeText("", text, r, |run|, false, max);
    assert r[1..] == rest;
    assert "" + text == text;
    var t := text + r;
    assert t[0] == text[0] && t[1..] == text[1..] + r;
    TakeText("", text[1..], r, 0, false, max);
    if PROMPT <= text { assert PROMPT <= t; }
  }

  /** A stream that ends inside its first line. */
  lemma OnlyTail(run: string, text: string)
    requires AllEols(run) && NoEols(text)
    ensures Lines(run + text) == [] && Tail(run + text) == text
  {
    SkipRun(run, text, 0, 0);
    TakeText("", text, "", 0, false, 0);
    assert text + "" == text && "" + text == text;
  }

  // ----- what splitting keeps -----

  function Concat(ls: seq<string>): string
  {
    if ls == [] then "" else ls[0] + Concat(ls[1..])
  }

  function WithoutEols(s: string): string
  {
    if s == "" then "" else (if IsEol(s[0]) then "" else [s[0]]) + WithoutEols(s[1..])
  }

  /** Lines are non-empty and free of newlines, and together with the tail they are exactly the
      other bytes of the stream, in order. */
  lemma {:induction false} LinesKeepText(text: string, s: string)
    requires NoEols(text)
    ensures forall i :: 0 <= i < |LinesFrom(text, s)| ==> LinesFrom(text, s)[i] != "" && NoEols(LinesFrom(text, s)[i])
    ensures Concat(LinesFrom(text, s)) + TailFrom(text, s) == text + WithoutEols(s)
    decreases |s|
  {
    if s == "" {
    } else if IsEol(s[0]) {
      LinesKeepText("", s[1..]);
      var ls := LinesFrom("", s[1..]);
      assert [] + ls == ls && ([text] + ls)[1..] == ls;
      assert text + (Concat(ls) + TailFrom("", s[1..])) == (text + Concat(ls)) + TailFrom("", s[1..]);
      assert WithoutEols(s) == "" + WithoutEols(s[1..]);
    } else {
      assert text + [s[0]] + WithoutEols(s[1..]) == text + ([s[0]] + WithoutEols(s[1..]));
      LinesKeepText(text + [s[0]], s[1..]);
    }
  }

  function Printed(ls: seq<string>): string
  {
    if ls == [] then "" else ls[0] + "\r\n" + Printed(ls[1..])
  }

  lemma NoNewline(s: string)
    requires '\r' !in s && '\n' !in s
    ensures NoEols(s)
  {
  }

  /** Lines sent with CR LF come back unchanged. */
  lemma {:induction false} PrintedLines(ls: seq<string>)
    requires forall i :: 0 <= i < |ls| ==> ls[i] != "" && '\r' !in ls[i] && '\n' !in ls[i]
    ensures Lines(Printed(ls)) == ls
  {
    if ls != [] {
      NoNewline(ls[0]);
      var rest := "\n" + Printed(ls[1..]);
      assert Printed(ls) == "" + ls[0] + ['\r'] + rest;
      FirstLine("", ls[0], '\r', rest, 0);
      SkipRun("\n", Printed(ls[1..]), 0, 0);
      PrintedLines(ls[1..]);
    }
  }
}
