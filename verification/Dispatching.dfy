/** What `readerLoop` does with the lines it reads: an SMS header takes the line behind it,
    everything else is processed. */
module Dispatching {
  import opened CText
  import opened Classify
  import opened Protocol

  datatype Dispatch = Sms(header: string, pdu: string) | Process(line: string)

  /** A header takes the next line with it; a header with nothing after it is lost. */
  function DispatchLines(ls: seq<string>): seq<Dispatch>
  {
    if ls == [] then []
    else if !IsSmsHeader(ls[0]) then [Process(ls[0])] + DispatchLines(ls[1..])
    else if |ls| == 1 then []
    else [Sms(ls[0], ls[1])] + DispatchLines(ls[2..])
  }

  /** The list does not end in a header still waiting for its line. */
  ghost predicate Settled(ls: seq<string>)
  {
    ls == [] ||
    if !IsSmsHeader(ls[0]) then Settled(ls[1..]) else |ls| > 1 && Settled(ls[2..])
  }

  /** One more line: the second of a header, one that starts afresh, or a header that waits. */
  lemma {:induction false} DispatchSnoc(ls: seq<string>, x: string)
    ensures !Settled(ls) ==> ls != []
    ensures var ds := DispatchLines(ls);
            DispatchLines(ls + [x]) ==
            if !Settled(ls) then ds + [Sms(Last(ls), x)] else if IsSmsHeader(x) then ds else ds + [Process(x)]
    ensures Settled(ls + [x]) <==> !Settled(ls) || !IsSmsHeader(x)
  {
    var all := ls + [x];
    if ls == [] {
      assert all == [x] && all[1..] == [];
    } else if !IsSmsHeader(ls[0]) {
      assert all[1..] == ls[1..] + [x];
      DispatchSnoc(ls[1..], x);
    } else if |ls| == 1 {
      assert all[2..] == [] && all[1] == x;
    } else {
      assert all[2..] == ls[2..] + [x];
      DispatchSnoc(ls[2..], x);
    }
  }

  // ----- one turn of the loop -----

  /** The lines one turn of the loop reads, and what it does with them. */
  ghost predicate Turn(ls: seq<string>, d: Option<Dispatch>)
  {
    match d
    case Some(Process(line)) => ls == [line] && !IsSmsHeader(line)
    case Some(Sms(header, pdu)) => ls == [header, pdu] && IsSmsHeader(header)
    case None => ls == [] || (|ls| == 1 && IsSmsHeader(ls[0]))
  }

  lemma DispatchTurn(ls: seq<string>, turn: seq<string>, d: Option<Dispatch>)
    requires Settled(ls) && Turn(turn, d)
    ensures DispatchLines(ls + turn) == DispatchLines(ls) + if d.Some? then [d.value] else []
    ensures d.Some? ==> Settled(ls + turn)
  {
    match |turn|
    case 0 => assert ls + turn == ls;
    case 1 =>
      DispatchSnoc(ls, turn[0]);
      assert turn == [turn[0]];
    case _ =>
      DispatchSnoc(ls, turn[0]);
      DispatchSnoc(ls + [turn[0]], turn[1]);
      assert ls + turn == (ls + [turn[0]]) + [turn[1]];
  }

  // ----- no line is lost or moved -----

  /** The lines of the dispatches, in order. */
  function Flatten(ds: seq<Dispatch>): seq<string>
  {
    if ds == [] then []
    else Flatten(ds[..|ds| - 1]) +
         match Last(ds)
         case Process(line) => [line]
         case Sms(header, pdu) => [header, pdu]
  }

  /** Headers at the end of a list, one behind the other. */
  function HeaderRun(ls: seq<string>): nat
  {
    if ls == [] || !IsSmsHeader(Last(ls)) then 0 else 1 + HeaderRun(ls[..|ls| - 1])
  }

  /** A header waits at the end exactly behind an odd run. */
  lemma {:induction false} SettledExactly(ls: seq<string>)
    ensures Settled(ls) <==> HeaderRun(ls) % 2 == 0
  {
    if ls != [] {
      var init := ls[..|ls| - 1];
      assert ls == init + [Last(ls)];
      SettledExactly(init);
      DispatchSnoc(init, Last(ls));
    }
  }

  /** Dispatching keeps every line, in order; only a last header that waits for its line goes
      missing, and it does exactly when the headers at the end are odd in number. */
  lemma {:induction false} DispatchKeepsLines(ls: seq<string>)
    ensures var kept := Flatten(DispatchLines(ls));
            if HeaderRun(ls) % 2 == 0 then kept == ls
            else ls != [] && IsSmsHeader(Last(ls)) && kept == ls[..|ls| - 1]
  {
    if ls != [] {
      var init, x := ls[..|ls| - 1], Last(ls);
      assert ls == init + [x];
      DispatchKeepsLines(init);
      SettledExactly(init);
      SettledExactly(ls);
      KeptSnoc(init, x);
    }
  }

  lemma KeptSnoc(ls: seq<string>, x: string)
    requires var kept := Flatten(DispatchLines(ls));
             if Settled(ls) then kept == ls else ls != [] && kept == ls[..|ls| - 1]
    ensures var kept := Flatten(DispatchLines(ls + [x]));
            if Settled(ls + [x]) then kept == ls + [x] else kept == ls
  {
    var ds := DispatchLines(ls);
    DispatchSnoc(ls, x);
    if !Settled(ls) {
      FlattenSnoc(ds, Sms(Last(ls), x));
      TwoBehind(ls, x);
    } else if !IsSmsHeader(x) {
      FlattenSnoc(ds, Process(x));
    }
  }

  lemma TwoBehind(ls: seq<string>, x: string)
    requires ls != []
    ensures ls[..|ls| - 1] + [Last(ls), x] == ls + [x]
  {
  }

  lemma FlattenSnoc(ds: seq<Dispatch>, d: Dispatch)
    ensures Flatten(ds + [d]) == Flatten(ds) + match d
                                               case Process(line) => [line]
                                               case Sms(header, pdu) => [header, pdu]
  {
    SnocSlice(ds, d);
  }

  /** The four headers of the lines that come in two. */
  ghost predicate Heads(line: string)
  {
    "+CMT:" <= line || "+CDS:" <= line || "+CBM:" <= line || "+CMTI:" <= line
  }

  ghost predicate Spelled(d: Dispatch)
  {
    match d
    case Process(line) => !Heads(line)
    case Sms(header, pdu) => Heads(header)
  }

  /** What is dispatched, told from the lines alone: they are taken one after the other, a header
      with the line behind it and any other line by itself, and only a header at the end can be
      left. */
  lemma {:induction false} DispatchesSpelled(ls: seq<string>)
    ensures forall i :: 0 <= i < |DispatchLines(ls)| ==> Spelled(DispatchLines(ls)[i])
    ensures var kept := Flatten(DispatchLines(ls));
            ls == kept || (ls != [] && Heads(Last(ls)) && ls == kept + [Last(ls)])
  {
    if ls != [] {
      var init, x := ls[..|ls| - 1], Last(ls);
      assert ls == init + [x];
      DispatchesSpelled(init);
      DispatchSnoc(init, x);
      TablesSpelled(x);
      TablesSpelled(if init == [] then x else Last(init));
      SettledExactly(init);
      DispatchKeepsLines(init);
      DispatchKeepsLines(ls);
    }
  }

  // ----- which lines are processed -----

  /** The lines that reach `processLine`. */
  function Processed(ds: seq<Dispatch>): seq<string>
  {
    if ds == [] then [] else Processed(ds[..|ds| - 1]) + if Last(ds).Process? then [Last(ds).line] else []
  }

  lemma ProcessedSnoc(ds: seq<Dispatch>, d: Dispatch)
    ensures Processed(ds + [d]) == Processed(ds) + if d.Process? then [d.line] else []
  {
    SnocSlice(ds, d);
  }

  /** The lines, headers excepted, behind an even number of headers. */
  function BehindEvenRuns(ls: seq<string>): seq<string>
  {
    if ls == [] then []
    else
      var init, x := ls[..|ls| - 1], Last(ls);
      BehindEvenRuns(init) + if HeaderRun(init) % 2 == 0 && !IsSmsHeader(x) then [x] else []
  }

  /** A line is processed exactly when it is no header and the headers right in front of it,
      two of which always cancel out, are even in number. */
  lemma {:induction false} ProcessedExactly(ls: seq<string>)
    ensures Processed(DispatchLines(ls)) == BehindEvenRuns(ls)
  {
    if ls != [] {
      var init, x := ls[..|ls| - 1], Last(ls);
      var ds := DispatchLines(init);
      assert ls == init + [x];
      ProcessedExactly(init);
      SettledExactly(init);
      DispatchSnoc(init, x);
      if !Settled(init) {
        ProcessedSnoc(ds, Sms(Last(init), x));
      } else if !IsSmsHeader(x) {
        ProcessedSnoc(ds, Process(x));
      }
    }
  }

  // ----- the final lines -----

  /** No final line stands behind an odd number of headers. */
  ghost predicate FinalsBehindEvenRuns(ls: seq<string>)
  {
    forall i :: 0 <= i < |ls| && IsFinal(ls[i]) ==> HeaderRun(ls[..i]) % 2 == 0
  }

  lemma EvenRunsSnoc(ls: seq<string>, x: string)
    ensures FinalsBehindEvenRuns(ls + [x]) <==>
            FinalsBehindEvenRuns(ls) && (IsFinal(x) ==> HeaderRun(ls) % 2 == 0)
  {
    var all := ls + [x];
    assert all[..|ls|] == ls && all[|ls|] == x;
    assert forall i :: 0 <= i < |ls| ==> all[..i] == ls[..i] && all[i] == ls[i];
  }

  lemma FinalsSnoc(ls: seq<string>, x: string)
    ensures Finals(ls + [x]) == if IsFinal(x) then Finals(ls) + [x] else Finals(ls)
  {
    SnocSlice(ls, x);
  }

  lemma SameFinals(fs: seq<string>, gs: seq<string>, x: string)
    ensures fs + [x] == gs + [x] <==> fs == gs
  {
    SnocSlice(fs, x);
    SnocSlice(gs, x);
  }

  /** How the two lists of finals grow by a line. */
  lemma EvenRunFinalsSnoc(ls: seq<string>, x: string)
    ensures Finals(ls + [x]) == if IsFinal(x) then Finals(ls) + [x] else Finals(ls)
    ensures var fs := Finals(BehindEvenRuns(ls));
            Finals(BehindEvenRuns(ls + [x])) == if IsFinal(x) && HeaderRun(ls) % 2 == 0 then fs + [x] else fs
  {
    var even := BehindEvenRuns(ls);
    SnocSlice(ls, x);
    FinalsSnoc(ls, x);
    FinalsSnoc(even, x);
    FinalTablesDisjoint(x);
    if HeaderRun(ls) % 2 == 0 && !IsSmsHeader(x) {
      assert BehindEvenRuns(ls + [x]) == even + [x];
    } else {
      assert BehindEvenRuns(ls + [x]) == even;
    }
  }

  lemma {:induction false} EvenRunFinals(ls: seq<string>)
    ensures |Finals(BehindEvenRuns(ls))| <= |Finals(ls)|
    ensures Finals(BehindEvenRuns(ls)) == Finals(ls) <==> FinalsBehindEvenRuns(ls)
  {
    if ls != [] {
      var init, x := ls[..|ls| - 1], Last(ls);
      assert ls == init + [x];
      EvenRunFinals(init);
      EvenRunsSnoc(init, x);
      EvenRunFinalsSnoc(init, x);
      SameFinals(Finals(BehindEvenRuns(init)), Finals(init), x);
    }
  }

  /** All final lines are processed, if and only if none of them stands behind an odd number of
      SMS headers. */
  lemma FinalsSurviveDispatch(ls: seq<string>)
    ensures Finals(Processed(DispatchLines(ls))) == Finals(ls) <==> FinalsBehindEvenRuns(ls)
  {
    ProcessedExactly(ls);
    EvenRunFinals(ls);
  }

  /** A `+CMTI:` notice has one line only, and takes the next one for its second: a final line
      that follows it is never processed. */
  lemma CmtiLosesFinal(rest: string, f: string)
    requires IsFinal(f)
    ensures var ls := ["+CMTI:" + rest, f];
            DispatchLines(ls) == [Sms("+CMTI:" + rest, f)] &&
            Processed(DispatchLines(ls)) == [] && Finals(ls) == [f] && !FinalsBehindEvenRuns(ls)
  {
    var h := "+CMTI:" + rest;
    var ls := [h, f];
    assert SMS_HEADERS[3] <= h;
    assert ls[2..] == [];
    FinalTablesDisjoint(h);
    assert ls == ([] + [h]) + [f];
    SnocSlice([], h);
    SnocSlice([h], f);
    FinalsSurviveDispatch(ls);
  }
}
