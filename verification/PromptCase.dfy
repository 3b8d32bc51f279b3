/** The SMS prompt: the cursor is left one cell behind the terminator, on whatever an earlier
    read has put there. */
module PromptCase {
  import opened CText
  import opened Splitter
  import opened LineReader
  import opened ReaderLoop
  import opened Readings

  /** A line as the modem prints it. */
  ghost predicate PlainLine(t: string)
  {
    t != "" && NulFree(t) && NoEols(t) && !(PROMPT <= t)
  }

  // ----- one burst, one reading -----

  lemma OneBurst(s: string)
    requires s != "" && NulFree(s)
    ensures Bytes([Burst(s)]) == s && Readable([Burst(s)])
  {
    assert [Burst(s)][1..] == [];
    assert s + "" == s;
  }

  /** A line that has just arrived is not taken for a prompt, unless one was pending. */
  lemma NoPromptRead(pending: string, y: string, newlines: string, later: string,
                     run: string, line: string, eol: char, rest: string)
    requires AllEols(newlines) && SkipEols(pending) != PROMPT && (later == "" || later == y)
    requires StartsWithLine(pending + y, run, line, eol, rest)
    ensures pending + y != newlines + PROMPT + later
  {
    if later == "" {
      NotOnlyEols(pending + y, newlines, PROMPT, run, line, eol, rest);
      assert newlines + PROMPT + later == newlines + PROMPT;
    } else if pending + y == newlines + PROMPT + y {
      SameFront(pending, newlines + PROMPT, y);
      SkipsRun(newlines, PROMPT);
    }
  }

  lemma PromptTook(whole: string, g: Reading, rest: string)
    requires g.ds == [] && g.ending.Prompted? && Took(whole, g, g.stale + rest)
    ensures whole == g.newlines + PROMPT + rest
    ensures rest == "" ==> whole == g.newlines + PROMPT
  {
    var n := |ReadingBytes(g)|;
    assert rest == (g.stale + rest)[|g.stale|..] == whole[n..];
    assert ReadingBytes(g) == g.newlines + PROMPT;
  }

  lemma SameFront(a: string, b: string, y: string)
    requires a + y == b + y
    ensures a == b
  {
    var n := |a|;
    assert a == (a + y)[..n] && b == (b + y)[..n];
  }

  /** With the front of a line pending and the rest of it arriving in one burst, readline
      returns it. */
  method ReadOne(r: Reader, ghost y: string, ghost run: string, ghost line: string, ghost eol: char, ghost rest: string)
    returns (at: nat, ghost g: Reading)
    requires r.Valid() && r.port.events == [Burst(y)] && |r.Stream()| < MAX_AT_RESPONSE
    requires StartsWithLine(r.Stream(), run, line, eol, rest) && SkipEols(r.Pending()) != PROMPT
    modifies r, r.buf, r.port
    ensures r.Valid() && r.Stream() == rest && StringAt(r.buf[..], at, line) && r.cur == at + |line| + 1
    ensures AllEols(old(r.Pending())) ==>
              r.port.events == [] && at == |run| - |old(r.Pending())| && forall k :: 0 <= k < at ==> IsEol(r.buf[k])
    ensures forall k :: r.end < k < r.buf.Length ==> r.buf[k] == old(r.buf[k])
  {
    ghost var pending := r.Pending();
    OneBurstIs(r.port.events, y);
    if AllEols(pending) { OnlyEols(pending); }
    var p;
    p, g := r.ReadLine();
    OneReading(pending, y, g, r.Stream(), r.Pending(), r.port.events, run, line, eol, rest);
    at := p.value;
  }

  /** A call of readline with one burst to come. */
  lemma OneReading(pending: string, y: string, g: Reading, left: string, kept: string, later: seq<ReadEvent>,
                   run: string, line: string, eol: char, rest: string)
    requires WellRead(g) && Took(pending + y, g, left) && |pending + y| < MAX_AT_RESPONSE
    requires left == kept + Bytes(later) && (g.ending.Prompted? ==> kept == g.stale) && Later([Burst(y)], later)
    requires g.ending.Closed? ==> later == [] && NoEols(kept)
    requires StartsWithLine(pending + y, run, line, eol, rest) && SkipEols(pending) != PROMPT
    ensures g.ds == [] && g.ending.Terminated? && g.newlines == run && g.ending.text == line && left == rest
  {
    if g.ending.Closed? { assert left == kept; }
    LineReadings(pending + y, g, left, run, line, eol, rest);
    if g.ending.Prompted? {
      PromptTook(pending + y, g, Bytes(later));
      if later != [] { OneBurstIs(later, y); }
      NoPromptRead(pending, y, g.newlines, Bytes(later), run, line, eol, rest);
    }
  }

  lemma OneBurstIs(events: seq<ReadEvent>, y: string)
    requires events == [Burst(y)]
    ensures Bytes(events) == y && Failed !in events
  {
    assert events[1..] == [];
    assert y + "" == y;
  }

  method TakePrompt(r: Reader, ghost run: string) returns (at: nat, ghost g: Reading)
    requires r.Valid() && r.port.events == [Burst(run + PROMPT)] && AllEols(run)
    requires AllEols(r.Pending()) && |r.Stream()| < MAX_AT_RESPONSE
    modifies r, r.buf, r.port
    ensures r.Valid() && r.port.events == [] && g.ds == [] && g.ending.Prompted? && at == |run|
    ensures r.Placed(at, g.ending) && r.LeavesStale(old(r.buf[..]), g)
  {
    ghost var pending := r.Pending();
    ghost var whole := (pending + run) + PROMPT;
    OnlyEols(pending);
    OneBurstIs(r.port.events, run + PROMPT);
    assert r.Stream() == whole;
    var p;
    p, g := r.ReadLine();
    PromptTaken(whole, run + PROMPT, g, r.Stream(), r.Pending(), r.port.events, pending + run);
    at := p.value;
  }

  /** With nothing but newlines pending and a prompt arriving, readline returns the prompt and
      leaves pending what the buffer held one cell behind its terminator. */
  method ReadPrompt(r: Reader, ghost run: string) returns (at: nat)
    requires r.Valid() && r.port.events == [Burst(run + PROMPT)] && AllEols(run)
    requires AllEols(r.Pending()) && |r.Stream()| < MAX_AT_RESPONSE
    modifies r, r.buf, r.port
    ensures r.Valid() && r.port.events == [] && StringAt(r.buf[..], at, PROMPT)
    ensures r.Pending() == CString(old(r.buf[..]), |run| + 3)
  {
    ghost var g;
    at, g := TakePrompt(r, run);
  }

  lemma PromptTaken(whole: string, y: string, g: Reading, left: string, kept: string, later: seq<ReadEvent>,
                    run: string)
    requires WellRead(g) && Took(whole, g, left) && |whole| <= MAX_AT_RESPONSE && left == kept + Bytes(later)
    requires whole == run + PROMPT && AllEols(run)
    requires g.ending.Closed? ==> later == [] && NoEols(kept) && kept != PROMPT
    ensures g.ds == [] && g.ending.Prompted? && g.newlines == run
    ensures Later([Burst(y)], later) && |Bytes(later)| < |y| ==> later == []
  {
    assert later == [] ==> left == kept;
    PromptReading(whole, g, left, run);
    if Later([Burst(y)], later) && later != [] { OneBurstIs(later, y); }
  }

  // ----- a line, a prompt, a reply -----

  /** The buffer of a new reader after a line has been read in one burst. */
  ghost predicate HoldsLine(b: seq<char>, run: string, t: string, behind: string)
  {
    var n, m := |run|, |run| + |t| + 1;
    m + |behind| < |b| && AllEols(behind) && NoEols(t) &&
    (forall k :: 0 <= k < n ==> IsEol(b[k])) && StringAt(b, n, t) &&
    b[m..m + |behind|] == behind && forall k :: m + |behind| <= k < |b| ==> b[k] == NUL
  }

  /** What of the text t, which starts behind `n` cells, lies behind `at` cells. */
  function Beyond(t: string, n: nat, at: nat): string
  {
    if at <= n then t else if at <= n + |t| then t[at - n..] else ""
  }

  /** The string at a cell of such a buffer: newlines at most, and the text beyond the cell. */
  lemma StringBeyond(b: seq<char>, run: string, t: string, behind: string, at: nat) returns (pre: string)
    requires HoldsLine(b, run, t, behind) && at < |b| && Last(b) == NUL
    ensures AllEols(pre) && CString(b, at) == pre + Beyond(t, |run|, at)
    ensures |CString(b, at)| <= |run| + |t| + |behind|
  {
    var n, m := |run|, |run| + |t|;
    if at > m {
      StringBehind(b, run, t, behind, at);
      pre := CString(b, at);
    } else {
      assert forall k :: n <= k < m ==> b[k] == b[n..n + |t|][k - n] == t[k - n];
      assert b[m] == NUL && FirstNul(b, at) == m;
      pre := if at <= n then b[at..n] else "";
      assert b[at..m] == pre + Beyond(t, n, at);
    }
  }

  lemma StringBehind(b: seq<char>, run: string, t: string, behind: string, at: nat)
    requires HoldsLine(b, run, t, behind) && |run| + |t| < at < |b| && Last(b) == NUL
    ensures AllEols(CString(b, at)) && |CString(b, at)| <= |behind|
  {
    var m := |run| + |t| + 1;
    var end := m + |behind|;
    forall k | m <= k < end ensures IsEol(b[k]) {
      assert b[k] == b[m..end][k - m] == behind[k - m];
    }
    assert b[end] == NUL;
    assert at > end ==> FirstNul(b, at) == at;
  }

  /** The line, in one burst, by a reader that has not read before. */
  method ReadFirst(r: Reader, ghost a: string, ghost t: string, ghost e: char, ghost b: string)
    requires r.Valid() && r.port.events == [Burst(a + t + [e] + b)] && r.Pending() == ""
    requires |a| + |t| + |b| + 1 < MAX_AT_RESPONSE && forall k :: 0 <= k < r.buf.Length ==> r.buf[k] == NUL
    requires AllEols(a) && IsEol(e) && AllEols(b) && PlainLine(t)
    modifies r, r.buf, r.port
    ensures r.Valid() && r.Pending() == b && r.port.events == [] && HoldsLine(r.buf[..], a, t, b)
  {
    OneBurstIs(r.port.events, a + t + [e] + b);
    assert r.Stream() == a + t + [e] + b;
    var at;
    ghost var g;
    at, g := ReadOne(r, a + t + [e] + b, a, t, e, b);
    assert r.Stream() == r.Pending();
    assert r.buf[r.cur..r.end] == b;
  }

  /** The line and then the prompt. */
  method PromptAfterLine(r: Reader, ghost a: string, ghost t: string, ghost e: char, ghost b: string, c: string)
    returns (ghost pre: string)
    requires r.Valid() && r.port.events == [Burst(a + t + [e] + b)] && r.Pending() == ""
    requires |a| + |t| + |b| + |c| + 3 < MAX_AT_RESPONSE && forall k :: 0 <= k < r.buf.Length ==> r.buf[k] == NUL
    requires AllEols(a) && IsEol(e) && AllEols(b) && AllEols(c) && PlainLine(t)
    modifies r, r.buf, r.port
    ensures r.Valid() && r.port.events == [] && AllEols(pre)
    ensures r.Pending() == pre + Beyond(t, |a|, |c| + 3) && |r.Pending()| <= |a| + |t| + |b|
  {
    ReadFirst(r, a, t, e, b);
    var prompt := c + PROMPT;
    OneBurst(prompt);
    r.port.events := [Burst(prompt)];
    OneBurstIs(r.port.events, prompt);
    ghost var was := r.buf[..];
    pre := StringBeyond(was, a, t, b, |c| + 3);
    var line := ReadPrompt(r, c);
  }

  /** The reply, with newlines and x pending in front of it. */
  method ReadReply(r: Reader, ghost pre: string, ghost x: string, ghost d: string, ghost u: string)
      returns (reply: string)
    requires r.Valid() && r.port.events == [Burst(d + u + "\r")]
    requires r.Pending() == pre + x && |r.Stream()| < MAX_AT_RESPONSE
    requires AllEols(pre) && AllEols(d) && NoEols(x) && PlainLine(u)
    modifies r, r.buf, r.port
    ensures reply == ReplyRead(x, d, u)
  {
    OneBurstIs(r.port.events, d + u + "\r");
    SkipsRun(pre, x);
    ghost var line := ReplyRead(x, d, u);
    var p;
    ghost var g;
    p, g := r.ReadLine();
    if x != PROMPT {
      ghost var run, eol, rest := ReplyStart(pre, x, d, u);
      OneReading(pre + x, d + u + "\r", g, r.Stream(), r.Pending(), r.port.events, run, line, eol, rest);
    }
    reply := CopyString(r.buf, p.value, line);
  }

  lemma ReplyStart(pre: string, x: string, d: string, u: string) returns (run: string, eol: char, rest: string)
    requires AllEols(pre) && AllEols(d) && NoEols(x) && PlainLine(u)
    ensures StartsWithLine((pre + x) + (d + u + "\r"), run,
                           if x == "" then u else if d != "" then x else x + u, eol, rest)
  {
    var s := (pre + x) + (d + u + "\r");
    if x == "" {
      run, eol, rest := pre + d, '\r', "";
      assert s == run + u + [eol] + rest;
    } else if d != "" {
      run, eol, rest := pre, d[0], d[1..] + u + "\r";
      assert d == [d[0]] + d[1..];
      assert s == run + x + [eol] + rest;
    } else {
      run, eol, rest := pre, '\r', "";
      assert s == run + (x + u) + [eol] + rest;
    }
  }

  /** What is read for the reply u, with x pending and the newlines d in between. */
  function ReplyRead(x: string, d: string, u: string): string
  {
    if x == "" then u else if d != "" || x == PROMPT then x else x + u
  }

  lemma ReplyIntact(t: string, n: nat, at: nat, d: string, u: string)
    requires PlainLine(t) && PlainLine(u)
    ensures var x := Beyond(t, n, at);
            ReplyRead(x, d, u) == u <==> n + |t| <= at || (d != "" && x == u)
  {
    var x := Beyond(t, n, at);
    assert |x + u| == |x| + |u|;
  }

  /** A line t, then a prompt, then a reply u, each in a burst of its own and each between
      newlines: after the prompt readline finds what of t lies behind the prompt's cells, and
      takes it for the beginning of the reply, or for the whole of it if newlines come first.
      The reply is u if and only if t with its newlines is no longer than the prompt with its
      own and three cells, or newlines come first and what is left of t happens to be u. */
  method PromptThenReply(a: string, t: string, e: char, b: string, c: string, d: string, u: string)
      returns (reply: string)
    requires AllEols(a) && IsEol(e) && AllEols(b) && AllEols(c) && AllEols(d) && PlainLine(t) && PlainLine(u)
    requires |a| + |t| + |b| + |c| + |d| + |u| + 3 < 4096
    ensures var x := Beyond(t, |a|, |c| + 3);
            reply == ReplyRead(x, d, u) && (reply == u <==> |a| + |t| <= |c| + 3 || (d != "" && x == u))
  {
    var first, second := a + t + [e] + b, d + u + "\r";
    OneBurst(first);
    OneBurst(second);
    var port := new Port([Burst(first)]);
    var r := new Reader(port);
    ghost var pre := PromptAfterLine(r, a, t, e, b, c);
    port.events := [Burst(second)];
    OneBurstIs(port.events, second);
    reply := ReadReply(r, pre, Beyond(t, |a|, |c| + 3), d, u);
    ReplyIntact(t, |a|, |c| + 3, d, u);
  }

  /** As a modem frames its lines, with CR LF before and behind, a line of more than three
      characters before a prompt is read a second time from its fourth on, in place of the
      reply; a shorter one does no harm. */
  method FramedPromptThenReply(t: string, u: string) returns (reply: string)
    requires PlainLine(t) && PlainLine(u) && |t| + |u| + 10 < 4096
    ensures reply == if |t| <= 3 then u else t[3..]
  {
    reply := PromptThenReply("\r\n", t, '\r', "\n", "\r\n", "\r\n", u);
  }

  /** With bare carriage returns the rest of the line goes in front of the reply. */
  method BarePromptThenReply(t: string, u: string) returns (reply: string)
    requires PlainLine(t) && PlainLine(u) && |t| + |u| + 3 < 4096
    ensures reply == if |t| <= 3 then u else if t[3..] == PROMPT then PROMPT else t[3..] + u
    ensures reply == u <==> |t| <= 3
  {
    reply := PromptThenReply("", t, '\r', "", "", "", u);
  }
}
