/** What a call of `readline` can make of a stream that starts with a line or is a prompt. */
module Readings {
  import opened CText
  import opened Splitter
  import opened LineReader
  import opened ReaderLoop

  /** Newlines, a line and its terminator in front of `rest`. */
  ghost predicate StartsWithLine(s: string, run: string, line: string, eol: char, rest: string)
  {
    s == run + line + [eol] + rest && AllEols(run) && NoEols(line) && line != "" && IsEol(eol)
  }

  lemma EolsWithin(s: string, run: string, after: string)
    requires s == run + after && AllEols(run)
    ensures forall i :: 0 <= i < |run| ==> IsEol(s[i])
  {
    forall i | 0 <= i < |run| ensures IsEol(s[i]) {
      assert s[i] == run[i];
    }
  }

  lemma LineWithin(s: string, run: string, line: string, eol: char, rest: string)
    requires StartsWithLine(s, run, line, eol, rest)
    ensures var n, m := |run|, |run| + |line|;
            run == s[..n] && line == s[n..m] && rest == s[m + 1..] &&
            (forall i :: 0 <= i < n ==> IsEol(s[i])) && (forall i :: n <= i < m ==> !IsEol(s[i])) && IsEol(s[m])
  {
    var n := |run|;
    assert s == run + (line + [eol] + rest);
    EolsWithin(s, run, line + [eol] + rest);
    forall i | n <= i < n + |line| ensures !IsEol(s[i]) {
      assert s[i] == line[i - n];
    }
  }

  lemma SameLine(s: string, run: string, line: string, eol: char, rest: string,
                 run': string, line': string, eol': char, rest': string)
    requires StartsWithLine(s, run, line, eol, rest) && StartsWithLine(s, run', line', eol', rest')
    ensures run == run' && line == line' && rest == rest'
  {
    LineWithin(s, run, line, eol, rest);
    LineWithin(s, run', line', eol', rest');
    assert s[|run|] == line[0] && s[|run'|] == line'[0];
    assert s[|run| + |line|] == eol && s[|run'| + |line'|] == eol';
  }

  /** No buffer is ditched in front of a line that fits it. */
  lemma LineNotDitched(whole: string, ds: seq<Ditch>, after: string, run: string, line: string, eol: char, rest: string)
    requires whole == DitchedBytes(ds) + after && AllOverflowed(ds)
    requires StartsWithLine(whole, run, line, eol, rest) && |run| + |line| < MAX_AT_RESPONSE
    ensures ds == []
  {
    LineWithin(whole, run, line, eol, rest);
    var m := |run| + |line|;
    assert whole[|run|] == line[0] && whole[m] == eol;
    if ds != [] {
      DitchedFront(ds);
      FrontShape(whole, ds[0]);
    }
  }

  lemma FrontShape(whole: string, d: Ditch)
    requires Overflowed(d) && d.newlines + d.text <= whole
    ensures forall i :: 0 <= i < |d.newlines| + |d.text| ==> (IsEol(whole[i]) <==> i < |d.newlines|)
  {
    var front := d.newlines + d.text;
    EolsThenText(front, d.newlines, d.text);
    assert forall i :: 0 <= i < |front| ==> whole[i] == front[i];
  }

  /** Nor in front of a prompt, which is found as soon as it is there. */
  lemma PromptNotDitched(whole: string, ds: seq<Ditch>, after: string, run: string)
    requires whole == DitchedBytes(ds) + after && AllOverflowed(ds)
    requires whole == run + PROMPT && AllEols(run) && |whole| <= MAX_AT_RESPONSE
    ensures ds == []
  {
    if ds != [] {
      DitchedFront(ds);
      assert whole == ds[0].newlines + ds[0].text;
      SplitIsUnique(whole, run, PROMPT, ds[0].newlines, ds[0].text);
    }
  }

  lemma SplitIsUnique(s: string, a: string, t: string, b: string, u: string)
    requires AllEols(a) && NoEols(t) && s == a + t && AllEols(b) && NoEols(u) && s == b + u
    ensures a == b && t == u
  {
    EolsThenText(s, a, t);
    EolsThenText(s, b, u);
    assert |a| < |s| ==> !IsEol(s[|a|]);
    assert |b| < |s| ==> !IsEol(s[|b|]);
  }

  lemma ReadingFront(g: Reading, after: string)
    ensures var whole := ReadingBytes(g) + after;
            whole == DitchedBytes(g.ds) + whole[|DitchedBytes(g.ds)|..]
  {
  }

  /** What a reading can make of a stream that starts with a line: that line, or a prompt in
      front of it. */
  lemma LineReadings(whole: string, g: Reading, left: string, run: string, line: string, eol: char, rest: string)
    requires WellRead(g) && Took(whole, g, left) && |run| + |line| < MAX_AT_RESPONSE
    requires StartsWithLine(whole, run, line, eol, rest)
    requires g.ending.Closed? ==> NoEols(left)
    ensures g.ds == [] && !g.ending.Closed?
    ensures g.ending.Terminated? ==> g.newlines == run && g.ending.text == line && left == rest
    ensures g.ending.Prompted? ==> whole == g.newlines + PROMPT + whole[|g.newlines| + 2..]
  {
    var after := whole[|ReadingBytes(g)|..];
    assert whole == ReadingBytes(g) + after;
    ReadingFront(g, after);
    LineNotDitched(whole, g.ds, whole[|DitchedBytes(g.ds)|..], run, line, eol, rest);
    BytesUnditched(g, after);
    assert !g.ending.Prompted? ==> left == after;
    match g.ending
    case Terminated(text, e) =>
      SameLine(whole, run, line, eol, rest, g.newlines, text, e, after);
    case Prompted =>
      assert whole[|g.newlines| + 2..] == after;
    case Closed =>
      NotOnlyEols(whole, g.newlines, after, run, line, eol, rest);
  }

  lemma BytesUnditched(g: Reading, after: string)
    requires g.ds == []
    ensures ReadingBytes(g) + after ==
            match g.ending
            case Terminated(text, e) => g.newlines + text + [e] + after
            case Prompted => g.newlines + PROMPT + after
            case Closed => g.newlines + after
  {
  }

  lemma NotOnlyEols(s: string, newlines: string, text: string, run: string, line: string, eol: char, rest: string)
    requires AllEols(newlines) && NoEols(text) && StartsWithLine(s, run, line, eol, rest)
    ensures s != newlines + text
  {
    LineWithin(s, run, line, eol, rest);
    assert s[|run|] == line[0] && s[|run| + |line|] == eol;
    if s == newlines + text {
      EolsThenText(s, newlines, text);
    }
  }

  lemma EolsThenText(s: string, newlines: string, text: string)
    requires AllEols(newlines) && NoEols(text) && s == newlines + text
    ensures forall i :: 0 <= i < |s| ==> (IsEol(s[i]) <==> i < |newlines|)
    ensures newlines == s[..|newlines|] && text == s[|newlines|..]
  {
    EolsWithin(s, newlines, text);
    forall i | |newlines| <= i < |s| ensures !IsEol(s[i]) {
      assert s[i] == text[i - |newlines|];
    }
  }

  /** A prompt behind newlines at the end of a stream is the only thing to be read there. */
  lemma PromptReading(whole: string, g: Reading, left: string, run: string)
    requires WellRead(g) && Took(whole, g, left) && |whole| <= MAX_AT_RESPONSE
    requires whole == run + PROMPT && AllEols(run)
    requires g.ending.Closed? ==> NoEols(left) && left != PROMPT
    ensures g.ds == [] && g.ending.Prompted? && g.newlines == run && left == g.stale
  {
    var rest := whole[|ReadingBytes(g)|..];
    assert whole == ReadingBytes(g) + rest;
    ReadingFront(g, rest);
    PromptNotDitched(whole, g.ds, whole[|DitchedBytes(g.ds)|..], run);
    match g.ending
    case Terminated(text, e) =>
      NotOnlyEols(whole, run, PROMPT, g.newlines, text, e, rest);
    case Prompted =>
      PromptThenRest(whole, run, g.newlines, rest);
    case Closed =>
      PromptLeft(whole, run, g.newlines, left);
  }

  lemma PromptThenRest(whole: string, run: string, newlines: string, rest: string)
    requires whole == run + PROMPT && whole == newlines + PROMPT + rest && AllEols(run) && AllEols(newlines)
    ensures run == newlines && rest == ""
  {
    EolsThenText(whole, run, PROMPT);
    assert whole == newlines + (PROMPT + rest);
    EolsWithin(whole, newlines, PROMPT + rest);
    assert whole[|newlines|] == '>';
  }

  lemma PromptLeft(whole: string, run: string, newlines: string, left: string)
    requires whole == run + PROMPT && whole == newlines + left && AllEols(run) && AllEols(newlines) && NoEols(left)
    ensures left == PROMPT
  {
    EolsThenText(whole, run, PROMPT);
    EolsThenText(whole, newlines, left);
    assert !IsEol(whole[|run|]);
    assert |newlines| < |whole|;
    assert !IsEol(whole[|newlines|]);
  }
}
