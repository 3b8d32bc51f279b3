/** When `readline` leaves its buffer: the NUL behind a read that fills it, and the cursor behind
    a prompt at its end. */
module BufferEnd {
  import opened CText
  import opened Splitter
  import opened LineReader
  import opened ReaderLoop
  import opened Readings
  import opened Dispatching
  import PromptCase

  /** The reader thread on a new descriptor.  If "> " does not occur in the stream, the buffer is
      left if and only if a read fills all the room it is given; so never by a stream shorter
      than the buffer, however it is cut, and always by a longer one that comes in one piece. */
  method ReadAll(events: seq<ReadEvent>) returns (r: Reader, dispatched: seq<Dispatch>)
    requires Readable(events)
    ensures fresh(r) && r.Valid()
    ensures !Contains(Bytes(events), PROMPT) ==> (r.strayed <==> r.port.filled > 0)
    ensures !Contains(Bytes(events), PROMPT) && |Bytes(events)| < 4096 ==> !r.strayed
    ensures FrontFills(events, 4096) ==> r.strayed
    ensures GoodStream(Bytes(events)) && Failed !in events ==> dispatched == DispatchLines(Lines(Bytes(events)))
  {
    var port := new Port(events);
    r := new Reader(port);
    ghost var gs;
    dispatched, gs := Loop(r);
  }

  /** A stream in one piece: exactly those as long as the buffer leave it. */
  method ReadInOnePiece(stream: string) returns (r: Reader)
    requires stream != "" && NulFree(stream) && !Contains(stream, PROMPT)
    ensures fresh(r) && r.Valid() && (r.strayed <==> |stream| >= 4096)
  {
    PromptCase.OneBurst(stream);
    var dispatched;
    r, dispatched := ReadAll([Burst(stream)]);
  }

  // ----- a stream of short lines -----

  function Oks(n: nat): string
  {
    if n == 0 then "" else "OK\r\n" + Oks(n - 1)
  }

  lemma GoodCons(c: char, s: string, n: nat, text: bool, start: bool)
    requires n < MAX_AT_RESPONSE && c != PROMPT[0]
    requires if IsEol(c) && text then FitsFrom(0, false, s, MAX_AT_RESPONSE)
             else FitsFrom(n + 1, !IsEol(c), s, MAX_AT_RESPONSE)
    requires PromptFreeFrom(IsEol(c), s)
    ensures FitsFrom(n, text, [c] + s, MAX_AT_RESPONSE) && PromptFreeFrom(start, [c] + s)
  {
    assert ([c] + s)[1..] == s;
  }

  lemma OkIsGood(rest: string, k: nat)
    requires k <= 1 && FitsFrom(1, false, rest, MAX_AT_RESPONSE) && PromptFree(rest)
    ensures var s := ['O'] + (['K'] + (['\r'] + (['\n'] + rest)));
            FitsFrom(k, false, s, MAX_AT_RESPONSE) && PromptFree(s)
  {
    GoodCons('\n', rest, 0, false, true);
    GoodCons('\r', ['\n'] + rest, k + 2, true, false);
    GoodCons('K', ['\r'] + (['\n'] + rest), k + 1, true, false);
    GoodCons('O', ['K'] + (['\r'] + (['\n'] + rest)), k, false, true);
  }

  lemma OkSpelled(rest: string)
    ensures "OK\r\n" + rest == ['O'] + (['K'] + (['\r'] + (['\n'] + rest)))
  {
  }

  lemma {:induction false} OksAreGood(n: nat, k: nat)
    requires k <= 1
    ensures |Oks(n)| == 4 * n && NulFree(Oks(n)) && FitsFrom(k, false, Oks(n), MAX_AT_RESPONSE) && PromptFree(Oks(n))
  {
    if n > 0 {
      OksAreGood(n - 1, 1);
      OkIsGood(Oks(n - 1), k);
      OkSpelled(Oks(n - 1));
    }
  }

  /** 1024 short lines in one read: every line is delivered, though the NUL behind them is
      written behind the buffer. */
  method GoodStreamLeavesBuffer() returns (r: Reader, dispatched: seq<Dispatch>, stream: string)
    ensures GoodStream(stream) && |stream| == 4096
    ensures fresh(r) && r.strayed && dispatched == DispatchLines(Lines(stream))
  {
    stream := Oks(1024);
    OksAreGood(1024, 0);
    PromptCase.OneBurst(stream);
    PromptCase.OneBurstIs([Burst(stream)], stream);
    r, dispatched := ReadAll([Burst(stream)]);
  }

  // ----- a prompt at the end of the buffer -----

  /** Newlines and a prompt in one read, and the next call.  The cursor is three cells behind the
      newlines: at the end of the buffer from 4093 newlines on, where the next call looks at a
      cell behind it, and with 4094 two cells past the last byte. */
  method PromptAtTheEnd(run: string) returns (r: Reader, cursor: nat)
    requires AllEols(run) && |run| + 2 <= 4096
    ensures fresh(r) && cursor == |run| + 3
    ensures r.strayed <==> |run| + 3 >= 4096
  {
    var stream := run + PROMPT;
    PromptCase.OneBurst(stream);
    PromptCase.OneBurstIs([Burst(stream)], stream);
    var port := new Port([Burst(stream)]);
    r := new Reader(port);
    cursor := ReadPromptFirst(r, run);
    var line;
    ghost var g;
    line, g := r.ReadLine();
  }

  /** The first of the two calls. */
  method ReadPromptFirst(r: Reader, run: string) returns (cursor: nat)
    requires r.Valid() && r.Pending() == "" && r.InBuffer() && !r.strayed
    requires AllEols(run) && |run| + 2 <= 4096
    requires r.port.events == [Burst(run + PROMPT)] && forall k :: 0 <= k < r.buf.Length ==> r.buf[k] == NUL
    modifies r, r.buf, r.port
    ensures r.Valid() && r.Stream() == "" && cursor == r.cur == |run| + 3
    ensures r.strayed <==> |run| + 2 == 4096
  {
    ghost var was, stream := r.buf[..], run + PROMPT;
    PromptCase.OneBurstIs(r.port.events, stream);
    assert r.Stream() == stream;
    var p;
    ghost var g;
    p, g := r.ReadLine();
    PromptCase.PromptTaken(stream, stream, g, r.Stream(), r.Pending(), r.port.events, run);
    cursor := r.cur;
  }
}
