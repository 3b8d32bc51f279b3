/** Streams with lines too long for the buffer: what of them comes back, and that reading is in
    step again with the next line that fits. */
module Resync {
  import opened CText
  import opened Splitter
  import opened LineReader
  import opened ReaderLoop
  import opened Readings
  import opened Dispatching

  // ----- splitting in two steps -----

  /** The splitter can stop anywhere and go on with the text it has. */
  lemma {:induction false} SplitInTwo(text: string, a: string, b: string)
    ensures LinesFrom(text, a + b) == LinesFrom(text, a) + LinesFrom(TailFrom(text, a), b)
    ensures TailFrom(text, a + b) == TailFrom(TailFrom(text, a), b)
    decreases |a|
  {
    if a == "" {
      assert a + b == b;
    } else {
      assert (a + b)[1..] == a[1..] + b && (a + b)[0] == a[0];
      if IsEol(a[0]) {
        SplitInTwo("", a[1..], b);
        Regroup(if text == "" then [] else [text], LinesFrom("", a[1..]), LinesFrom(TailFrom("", a[1..]), b));
      } else {
        SplitInTwo(text + [a[0]], a[1..], b);
      }
    }
  }

  lemma Regroup(a: seq<string>, b: seq<string>, c: seq<string>)
    ensures a + (b + c) == (a + b) + c
  {
  }

  /** Nothing is left of a line exactly behind a newline or at the start. */
  lemma {:induction false} TailEmpty(text: string, s: string)
    ensures TailFrom(text, s) == "" <==> if s == "" then text == "" else IsEol(Last(s))
    decreases |s|
  {
    if s != "" {
      TailEmpty(if IsEol(s[0]) then "" else text + [s[0]], s[1..]);
      assert s[1..] != "" ==> Last(s[1..]) == Last(s);
    }
  }

  // ----- one reading -----

  /** What a reading ditches and skips in front of its line. */
  function Skipped(g: Reading): string
  {
    DitchedBytes(g.ds) + g.newlines
  }

  /** The lines of the splitter that a reading passes: those it ditches whole, and then the one
      whose end it returns. */
  function LinesPassed(g: Reading): seq<string>
  {
    Lines(Skipped(g)) + match g.ending
                        case Terminated(text, _) => [Tail(Skipped(g)) + text]
                        case _ => []
  }

  /** What the reading leaves of a line that it has begun. */
  function Begun(g: Reading): string
  {
    if g.ending.Terminated? then "" else Tail(Skipped(g))
  }

  lemma ReadingPasses(g: Reading, rest: string)
    requires WellRead(g) && !g.ending.Prompted?
    ensures Lines(ReadingBytes(g) + rest) == LinesPassed(g) + LinesFrom(Begun(g), rest)
  {
    var skipped := Skipped(g);
    match g.ending
    case Terminated(text, eol) =>
      assert ReadingBytes(g) + rest == skipped + (text + ([eol] + rest));
      SplitInTwo("", skipped, text + ([eol] + rest));
      TakeText(Tail(skipped), text, [eol] + rest, 0, false, 0);
      assert ([eol] + rest)[1..] == rest;
    case Closed =>
      assert ReadingBytes(g) + rest == skipped + rest;
      SplitInTwo("", skipped, rest);
  }

  /** The line comes back whole if and only if nothing was skipped in front of it or a newline
      was skipped last; otherwise its front was ditched and only its end comes back. */
  lemma WholeExactly(g: Reading)
    requires g.ending.Terminated?
    ensures Last(LinesPassed(g)) == Tail(Skipped(g)) + g.ending.text
    ensures Last(LinesPassed(g)) == g.ending.text <==> Skipped(g) == "" || IsEol(Last(Skipped(g)))
  {
    TailEmpty("", Skipped(g));
    assert |Tail(Skipped(g)) + g.ending.text| == |Tail(Skipped(g))| + |g.ending.text|;
  }

  // ----- a run -----

  function AllPassed(gs: seq<Reading>): seq<string>
  {
    if gs == [] then [] else LinesPassed(gs[0]) + AllPassed(gs[1..])
  }

  /** Whatever is ditched: on a stream without "> " the lines of the splitter are those the
      readings pass, in order, and those of what is left. */
  lemma {:induction false} LinesArePassed(whole: string, gs: seq<Reading>, left: string)
    requires Accounts(whole, gs, left) && AllWellRead(gs) && Unprompted(gs)
    requires gs != [] ==> NoneClosed(gs[..|gs| - 1])
    ensures Lines(whole) == AllPassed(gs) + LinesFrom(if gs == [] then "" else Begun(Last(gs)), left)
    decreases |gs|
  {
    if gs != [] {
      var g := gs[0];
      var rest := whole[|ReadingBytes(g)|..];
      assert WellRead(g) && !g.ending.Prompted? && whole == ReadingBytes(g) + rest;
      ReadingPasses(g, rest);
      assert g.stale + rest == rest;
      if |gs| > 1 {
        assert gs[..|gs| - 1][0] == g;
        assert gs[1..][..|gs| - 2] == gs[..|gs| - 1][1..];
        assert Last(gs[1..]) == Last(gs);
        LinesArePassed(rest, gs[1..], left);
        Regroup(LinesPassed(g), AllPassed(gs[1..]), LinesFrom(Begun(Last(gs)), left));
      } else {
        assert gs[1..] == [];
      }
    }
  }

  /** The reader thread on any stream without "> ", with lines of any length. */
  method ReadOverlong(r: Reader) returns (dispatched: seq<Dispatch>, ghost gs: seq<Reading>)
    requires r.Valid() && !Contains(r.Stream(), PROMPT)
    modifies r, r.buf, r.port
    ensures r.Valid() && Accounts(old(r.Stream()), gs, r.Stream()) && AllWellRead(gs)
    ensures dispatched == DispatchLines(TextsOf(gs))
    ensures gs != [] && Lines(old(r.Stream())) == AllPassed(gs) + LinesFrom(Begun(Last(gs)), r.Stream())
  {
    ghost var whole := r.Stream();
    dispatched, gs := Turns(r);
    PromptsAreInTheStream(whole, gs, r.Stream());
    LinesArePassed(whole, gs, r.Stream());
  }

  /** A line that fits the buffer with the newlines in front of it comes back whole, whatever was
      ditched before: the reading that starts there returns it and stops behind it. */
  lemma FittingLineComesBack(whole: string, g: Reading, left: string,
                             run: string, line: string, eol: char, rest: string)
    requires WellRead(g) && Took(whole, g, left) && !g.ending.Prompted? && (g.ending.Closed? ==> NoEols(left))
    requires StartsWithLine(whole, run, line, eol, rest) && |run| + |line| < 4096
    ensures g.ds == [] && g.newlines == run && TextOf(g) == [line] && left == rest
    ensures LinesPassed(g) == [line]
  {
    LineReadings(whole, g, left, run, line, eol, rest);
    SkipRun(run, "", 0, 0);
    assert run + "" == run && Skipped(g) == "" + run == run;
    assert [] + ["" + line] == [line] by { assert "" + line == line; }
  }
}
