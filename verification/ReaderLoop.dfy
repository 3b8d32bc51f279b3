/** `readerLoop`: lines read one after another and dispatched, with an account of every byte of
    the stream. */
module ReaderLoop {
  import opened CText
  import opened Splitter
  import opened LineReader
  import opened Dispatching
  import Classify

  // ----- one reading of readline against the line splitter -----

  lemma {:induction false} DitchedFront(ds: seq<Ditch>)
    requires ds != []
    ensures ds[0].newlines + ds[0].text <= DitchedBytes(ds)
  {
    if |ds| > 1 {
      DitchedFront(ds[..|ds| - 1]);
    }
  }

  /** A stream that fits never fills the buffer. */
  lemma FittingNeverDitches(ds: seq<Ditch>, rest: string)
    requires AllOverflowed(ds) && Fits(DitchedBytes(ds) + rest, MAX_AT_RESPONSE)
    ensures ds == []
  {
    if ds != [] {
      DitchedFront(ds);
      var d := ds[0];
      assert Overflowed(d);
      var whole := DitchedBytes(ds) + rest;
      var after := whole[|d.newlines| + |d.text|..];
      assert whole == d.newlines + (d.text + after);
      SkipRun(d.newlines, d.text + after, 0, MAX_AT_RESPONSE);
      TakeText("", d.text, after, |d.newlines|, false, MAX_AT_RESPONSE);
    }
  }

  /** Streams that fit and have no line that starts like a prompt. */
  ghost predicate GoodStream(s: string)
  {
    Fits(s, 4096) && PromptFree(s)
  }

  /** The line a reading returns, if any. */
  function TextOf(g: Reading): seq<string>
  {
    match g.ending
    case Terminated(text, _) => [text]
    case Prompted => [PROMPT]
    case Closed => []
  }

  /** On a good stream a call of readline takes exactly the first line of the splitter, and what
      it leaves is good again. */
  lemma ReadingIsFirstLine(g: Reading, rest: string)
    requires WellRead(g) && GoodStream(ReadingBytes(g) + rest)
    ensures g.ds == [] && !g.ending.Prompted?
    ensures Lines(ReadingBytes(g) + rest) == TextOf(g) + Lines(rest)
    ensures g.ending.Terminated? ==> GoodStream(rest)
  {
    var front := ReadingBytes(g.(ds := []));
    assert ReadingBytes(g) + rest == DitchedBytes(g.ds) + (front + rest);
    FittingNeverDitches(g.ds, front + rest);
    match g.ending
    case Terminated(text, eol) =>
      assert ReadingBytes(g) + rest == g.newlines + text + [eol] + rest;
      FirstLine(g.newlines, text, eol, rest, MAX_AT_RESPONSE);
    case Prompted =>
      assert ReadingBytes(g) + rest == g.newlines + (PROMPT + rest);
      NoPromptInGood(g.newlines, rest);
    case Closed =>
      assert ReadingBytes(g) + rest == g.newlines + rest;
      SkipRun(g.newlines, rest, 0, MAX_AT_RESPONSE);
  }

  lemma NoPromptInGood(newlines: string, rest: string)
    requires AllEols(newlines)
    ensures !PromptFree(newlines + (PROMPT + rest))
  {
    SkipRun(newlines, PROMPT + rest, 0, MAX_AT_RESPONSE);
  }

  // ----- the readings of a run -----

  function TextsOf(gs: seq<Reading>): seq<string>
  {
    if gs == [] then [] else TextOf(gs[0]) + TextsOf(gs[1..])
  }

  /** The bytes taken by all the readings. */
  function AllBytes(gs: seq<Reading>): string
  {
    if gs == [] then "" else ReadingBytes(gs[0]) + AllBytes(gs[1..])
  }

  function StaleBytes(gs: seq<Reading>): nat
  {
    if gs == [] then 0 else |gs[0].stale| + StaleBytes(gs[1..])
  }

  ghost predicate AllWellRead(gs: seq<Reading>)
  {
    forall i :: 0 <= i < |gs| ==> WellRead(gs[i])
  }

  ghost predicate Unprompted(gs: seq<Reading>)
  {
    forall i :: 0 <= i < |gs| ==> !gs[i].ending.Prompted?
  }

  ghost predicate NoneClosed(gs: seq<Reading>)
  {
    forall i :: 0 <= i < |gs| ==> !gs[i].ending.Closed?
  }

  /** Each reading takes its bytes from the front of what the one before it left. */
  ghost predicate Accounts(whole: string, gs: seq<Reading>, left: string)
    decreases |gs|
  {
    if gs == [] then left == whole
    else
      var bytes := ReadingBytes(gs[0]);
      bytes <= whole && Accounts(gs[0].stale + whole[|bytes|..], gs[1..], left)
  }

  lemma {:induction false} AccountsSnoc(whole: string, gs: seq<Reading>, mid: string, g: Reading, left: string)
    requires Accounts(whole, gs, mid) && Took(mid, g, left)
    ensures Accounts(whole, gs + [g], left) && TextsOf(gs + [g]) == TextsOf(gs) + TextOf(g)
    decreases |gs|
  {
    var all := gs + [g];
    if gs == [] {
      assert all[1..] == [] && TextsOf(all) == TextOf(g);
    } else {
      assert all[1..] == gs[1..] + [g];
      AccountsSnoc(gs[0].stale + whole[|ReadingBytes(gs[0])|..], gs[1..], mid, g, left);
    }
  }

  /** On every stream, whatever is ditched: the readings take the stream in order, byte for
      byte, if and only if no prompt leaves old contents of the buffer pending. */
  lemma {:induction false} BytesConserved(whole: string, gs: seq<Reading>, left: string)
    requires Accounts(whole, gs, left)
    ensures |whole| + StaleBytes(gs) == |AllBytes(gs)| + |left|
    ensures StaleBytes(gs) == 0 <==> whole == AllBytes(gs) + left
    decreases |gs|
  {
    if gs != [] {
      var bytes, stale := ReadingBytes(gs[0]), gs[0].stale;
      var rest := whole[|bytes|..];
      BytesConserved(stale + rest, gs[1..], left);
      assert whole == bytes + rest;
      Joined(bytes, AllBytes(gs[1..]), left);
      if stale == "" { assert stale + rest == rest; }
      if StaleBytes(gs) != 0 { assert |whole| != |AllBytes(gs) + left|; }
    }
  }

  lemma Joined(a: string, b: string, c: string)
    ensures a + (b + c) == (a + b) + c
  {
  }

  lemma ContainsInside(s: string, a: string, part: string, b: string)
    requires s == a + part + b
    ensures Contains(s, part)
  {
    assert OccursAt(s, part, |a|);
  }

  lemma ContainsLater(s: string, n: nat, part: string)
    requires n <= |s| && Contains(s[n..], part)
    ensures Contains(s, part)
  {
    var i :| 0 <= i <= |s[n..]| && OccursAt(s[n..], part, i);
    assert s[n..][i..] == s[n + i..] && OccursAt(s, part, n + i);
  }

  /** Where the prompt's two characters do not occur, no reading is a prompt. */
  lemma {:induction false} PromptsAreInTheStream(whole: string, gs: seq<Reading>, left: string)
    requires Accounts(whole, gs, left) && AllWellRead(gs) && !Contains(whole, PROMPT)
    ensures StaleBytes(gs) == 0 && Unprompted(gs)
    decreases |gs|
  {
    if gs != [] {
      var g := gs[0];
      var rest := whole[|ReadingBytes(g)|..];
      if g.ending.Prompted? {
        ContainsInside(whole, DitchedBytes(g.ds) + g.newlines, PROMPT, rest);
      }
      assert WellRead(g);
      if Contains(rest, PROMPT) { ContainsLater(whole, |ReadingBytes(g)|, PROMPT); }
      assert g.stale + rest == rest;
      PromptsAreInTheStream(rest, gs[1..], left);
    }
  }

  /** The lines of a good stream are the texts of its readings, and nothing is ditched. */
  lemma {:induction false} GoodStreamSplits(whole: string, gs: seq<Reading>, left: string)
    requires Accounts(whole, gs, left) && AllWellRead(gs) && GoodStream(whole)
    requires gs != [] ==> NoneClosed(gs[..|gs| - 1])
    ensures Lines(whole) == TextsOf(gs) + Lines(left)
    ensures Unprompted(gs) && forall i :: 0 <= i < |gs| ==> gs[i].ds == []
    decreases |gs|
  {
    if gs != [] {
      var g := gs[0];
      var rest := whole[|ReadingBytes(g)|..];
      assert WellRead(g) && whole == ReadingBytes(g) + rest;
      ReadingIsFirstLine(g, rest);
      assert g.stale + rest == rest;
      if |gs| > 1 {
        assert gs[..|gs| - 1][0] == g;
        assert gs[1..][..|gs| - 2] == gs[..|gs| - 1][1..];
        GoodStreamSplits(rest, gs[1..], left);
      } else {
        assert gs[1..] == [] && TextsOf(gs) == TextOf(g);
      }
    }
  }

  // ----- the loop -----

  /** The readings so far and what they leave; only the last can have found the end. */
  ghost predicate Account(whole: string, gs: seq<Reading>, left: string, closed: bool)
  {
    Accounts(whole, gs, left) && AllWellRead(gs) &&
    if closed then gs != [] && NoneClosed(gs[..|gs| - 1]) else NoneClosed(gs)
  }

  lemma AccountSnoc(whole: string, gs: seq<Reading>, mid: string, g: Reading, left: string)
    requires Account(whole, gs, mid, false) && Took(mid, g, left) && WellRead(g)
    ensures Account(whole, gs + [g], left, g.ending.Closed?) && TextsOf(gs + [g]) == TextsOf(gs) + TextOf(g)
  {
    AccountsSnoc(whole, gs, mid, g, left);
    assert (gs + [g])[..|gs|] == gs;
  }

  /** How a reader has fared since its stream was `whole`: as long as no prompt was read it is in
      its buffer, has left it only by reads that filled their room, and has met none of these if
      the stream is shorter than the buffer. */
  ghost predicate Kept(r: Reader, whole: string, gs: seq<Reading>, strayed: bool, filled: nat)
    requires r.Valid()
    reads r, r.buf, r.port
  {
    Unprompted(gs) ==>
      r.InBuffer() && r.Tracked(strayed, filled) && |r.Stream()| <= |whole| &&
      (|whole| < MAX_AT_RESPONSE ==> r.port.filled == filled)
  }

  /** Nothing pending and a read to come that brings a whole buffer. */
  ghost predicate Flooded(r: Reader)
    requires r.Valid()
    reads r, r.buf, r.port
  {
    r.Pending() == "" && FrontFills(r.port.events, MAX_AT_RESPONSE)
  }

  /** One call of readline, its line left in the buffer. */
  method ReadNext(r: Reader, ghost whole: string, ghost gs: seq<Reading>, ghost strayed: bool, ghost filled: nat)
    returns (line: Option<nat>, ghost text: string, ghost gs': seq<Reading>)
    requires r.Valid() && Account(whole, gs, r.Stream(), false)
    modifies r, r.buf, r.port
    ensures r.Valid() && Account(whole, gs', r.Stream(), line.None?)
    ensures line.Some? ==> StringAt(r.buf[..], line.value, text)
    ensures TextsOf(gs') == TextsOf(gs) + if line.Some? then [text] else []
    ensures old(Kept(r, whole, gs, strayed, filled)) ==> Kept(r, whole, gs', strayed, filled)
    ensures old(r.strayed) || old(Flooded(r)) ==> r.strayed
    ensures line.None? ==> NoEols(r.Pending()) && (r.port.events == [] || Failed in old(r.port.events))
    ensures Failed in r.port.events ==> Failed in old(r.port.events)
    ensures line.Some? ==> |Bytes(r.port.events)| < |Bytes(old(r.port.events))|
                           || (|Bytes(r.port.events)| == |Bytes(old(r.port.events))| && r.cur > old(r.cur))
  {
    ghost var mid, g := r.Stream(), Reading([], "", Closed, "");
    line, g := r.ReadLine();
    AccountSnoc(whole, gs, mid, g, r.Stream());
    gs' := gs + [g];
    UnpromptedSnoc(gs, g);
    text := match g.ending case Terminated(t, _) => t case Prompted => PROMPT case Closed => "";
  }

  lemma UnpromptedSnoc(gs: seq<Reading>, g: Reading)
    ensures Unprompted(gs + [g]) <==> Unprompted(gs) && !g.ending.Prompted?
  {
    assert (gs + [g])[|gs|] == g;
    assert forall i :: 0 <= i < |gs| ==> gs[i] == (gs + [g])[i];
  }

  /** One call of readline, its line copied. */
  method NextText(r: Reader, ghost whole: string, ghost gs: seq<Reading>, ghost strayed: bool, ghost filled: nat)
    returns (text: Option<string>, ghost gs': seq<Reading>)
    requires r.Valid() && Account(whole, gs, r.Stream(), false)
    modifies r, r.buf, r.port
    ensures r.Valid() && Account(whole, gs', r.Stream(), text.None?)
    ensures TextsOf(gs') == TextsOf(gs) + if text.Some? then [text.value] else []
    ensures old(Kept(r, whole, gs, strayed, filled)) ==> Kept(r, whole, gs', strayed, filled)
    ensures old(r.strayed) || old(Flooded(r)) ==> r.strayed
    ensures text.None? ==> NoEols(r.Pending()) && (r.port.events == [] || Failed in old(r.port.events))
    ensures Failed in r.port.events ==> Failed in old(r.port.events)
    ensures text.Some? ==> |Bytes(r.port.events)| < |Bytes(old(r.port.events))|
                           || (|Bytes(r.port.events)| == |Bytes(old(r.port.events))| && r.cur > old(r.cur))
  {
    var line;
    ghost var t;
    line, t, gs' := ReadNext(r, whole, gs, strayed, filled);
    if line.None? {
      return None, gs';
    }
    var s := CopyString(r.buf, line.value, t);
    text := Some(s);
  }

  /** One turn: a line, and for an SMS header the line after it. */
  method ReadTurn(r: Reader, ghost whole: string, ghost gs: seq<Reading>, ghost strayed: bool, ghost filled: nat)
    returns (d: Option<Dispatch>, ghost turn: seq<string>, ghost gs': seq<Reading>)
    requires r.Valid() && Account(whole, gs, r.Stream(), false)
    modifies r, r.buf, r.port
    ensures r.Valid() && Account(whole, gs', r.Stream(), d.None?)
    ensures old(Kept(r, whole, gs, strayed, filled)) ==> Kept(r, whole, gs', strayed, filled)
    ensures old(r.strayed) || old(Flooded(r)) ==> r.strayed
    ensures TextsOf(gs') == TextsOf(gs) + turn && Turn(turn, d)
    ensures d.None? ==> NoEols(r.Pending()) && (r.port.events == [] || Failed in old(r.port.events))
    ensures Failed in r.port.events ==> Failed in old(r.port.events)
    ensures d.Some? ==> |Bytes(r.port.events)| < |Bytes(old(r.port.events))|
                        || (|Bytes(r.port.events)| == |Bytes(old(r.port.events))| && r.cur > old(r.cur))
  {
    var line;
    line, gs' := NextText(r, whole, gs, strayed, filled);
    if line.None? {
      return None, [], gs';
    }
    ghost var first := gs';
    d, turn, gs' := FinishTurn(r, line.value, whole, first, strayed, filled);
    Regrouped(TextsOf(gs), [line.value], turn);
    turn := [line.value] + turn;
  }

  lemma Regrouped(a: seq<string>, b: seq<string>, c: seq<string>)
    ensures a + (b + c) == (a + b) + c
  {
  }

  /** What is done with a line read: processed, or paired with the next one. */
  method FinishTurn(r: Reader, line: string, ghost whole: string, ghost gs: seq<Reading>,
                    ghost strayed: bool, ghost filled: nat)
    returns (d: Option<Dispatch>, ghost second: seq<string>, ghost gs': seq<Reading>)
    requires r.Valid() && Account(whole, gs, r.Stream(), false)
    modifies r, r.buf, r.port
    ensures r.Valid() && Account(whole, gs', r.Stream(), d.None?)
    ensures TextsOf(gs') == TextsOf(gs) + second && Turn([line] + second, d)
    ensures old(Kept(r, whole, gs, strayed, filled)) ==> Kept(r, whole, gs', strayed, filled)
    ensures old(r.strayed) ==> r.strayed
    ensures d.None? ==> NoEols(r.Pending()) && (r.port.events == [] || Failed in old(r.port.events))
    ensures Failed in r.port.events ==> Failed in old(r.port.events)
    ensures d.Some? ==> |Bytes(r.port.events)| < |Bytes(old(r.port.events))|
                        || (|Bytes(r.port.events)| == |Bytes(old(r.port.events))| && r.cur >= old(r.cur))
  {
    gs', second := gs, [];
    var header := Classify.StartsWithAny(line, Classify.SMS_HEADERS);
    if !header {
      assert TextsOf(gs) + [] == TextsOf(gs) && [line] + [] == [line];
      return Some(Process(line)), second, gs';
    }
    var line2;
    line2, gs' := NextText(r, whole, gs, strayed, filled);
    if line2.None? {
      assert [line] + [] == [line];
      return None, second, gs';
    }
    second := [line2.value];
    d := Some(Sms(line, line2.value));
    assert [line] + second == [line, line2.value];
  }

  /** What an account says of its stream. */
  lemma AccountMeans(whole: string, gs: seq<Reading>, left: string)
    requires Account(whole, gs, left, true)
    ensures StaleBytes(gs) == 0 <==> whole == AllBytes(gs) + left
    ensures !Contains(whole, PROMPT) ==> whole == AllBytes(gs) + left && Unprompted(gs)
    ensures GoodStream(whole) ==>
              Lines(whole) == TextsOf(gs) + Lines(left) && forall i :: 0 <= i < |gs| ==> gs[i].ds == []
    ensures GoodStream(whole) && NoEols(left) ==> Lines(whole) == TextsOf(gs)
  {
    BytesConserved(whole, gs, left);
    if !Contains(whole, PROMPT) { PromptsAreInTheStream(whole, gs, left); }
    if GoodStream(whole) { GoodStreamSplits(whole, gs, left); }
    if NoEols(left) {
      OnlyTail("", left);
      assert "" + left == left && TextsOf(gs) + [] == TextsOf(gs);
    }
  }

  /** The reader thread until its descriptor ends. */
  method Loop(r: Reader) returns (dispatched: seq<Dispatch>, ghost gs: seq<Reading>)
    requires r.Valid()
    modifies r, r.buf, r.port
    ensures r.Valid() && NoEols(r.Pending()) && (r.port.events == [] || Failed in old(r.port.events))
    ensures dispatched == DispatchLines(TextsOf(gs))
    ensures AllWellRead(gs) && Accounts(old(r.Stream()), gs, r.Stream())
    ensures StaleBytes(gs) == 0 <==> old(r.Stream()) == AllBytes(gs) + r.Stream()
    ensures old(r.InBuffer()) && !Contains(old(r.Stream()), PROMPT) ==>
              (r.strayed <==> old(r.strayed) || r.port.filled > old(r.port.filled)) &&
              (|old(r.Stream())| < 4096 ==> r.port.filled == old(r.port.filled))
    ensures old(Flooded(r)) ==> r.strayed
    ensures !Contains(old(r.Stream()), PROMPT) ==> old(r.Stream()) == AllBytes(gs) + r.Stream()
    ensures GoodStream(old(r.Stream())) ==>
              Lines(old(r.Stream())) == TextsOf(gs) + Lines(r.Stream()) && forall i :: 0 <= i < |gs| ==> gs[i].ds == []
    ensures GoodStream(old(r.Stream())) && Failed !in old(r.port.events) ==>
              dispatched == DispatchLines(Lines(old(r.Stream())))
  {
    ghost var whole := r.Stream();
    dispatched, gs := Turns(r);
    AccountMeans(whole, gs, r.Stream());
    assert r.port.events == [] ==> r.Stream() == r.Pending() + "" == r.Pending();
  }

  method Turns(r: Reader) returns (dispatched: seq<Dispatch>, ghost gs: seq<Reading>)
    requires r.Valid()
    modifies r, r.buf, r.port
    ensures r.Valid() && NoEols(r.Pending()) && (r.port.events == [] || Failed in old(r.port.events))
    ensures dispatched == DispatchLines(TextsOf(gs)) && Account(old(r.Stream()), gs, r.Stream(), true)
    ensures old(r.InBuffer()) ==> Kept(r, old(r.Stream()), gs, old(r.strayed), old(r.port.filled))
    ensures old(Flooded(r)) ==> r.strayed
  {
    ghost var whole, strayed, filled := r.Stream(), r.strayed, r.port.filled;
    dispatched, gs := [], [];
    while true
      invariant r.Valid()
      invariant dispatched == DispatchLines(TextsOf(gs)) && Settled(TextsOf(gs))
      invariant Account(whole, gs, r.Stream(), false)
      invariant old(r.InBuffer()) ==> Kept(r, whole, gs, strayed, filled)
      invariant old(Flooded(r)) ==> r.strayed || Flooded(r)
      invariant Failed in r.port.events ==> Failed in old(r.port.events)
      decreases |Bytes(r.port.events)|, r.buf.Length - r.cur
    {
      ghost var texts, turn := TextsOf(gs), [];
      var d;
      d, turn, gs := ReadTurn(r, whole, gs, strayed, filled);
      DispatchTurn(texts, turn, d);
      if d.None? {
        break;
      }
      dispatched := dispatched + [d.value];
    }
  }
}
