/** What a call is handed, in terms of the lines themselves: which ones are final, what they say
    of success, and which others answer the command. */
module Delivered {
  import opened CText
  import opened Classify
  import opened Protocol

  /** Final lines that report success. */
  ghost predicate Positive(line: string)
  {
    "OK" <= line || "+QIND: \"FOTA\",\"END\",0" <= line || "CONNECT" <= line
  }

  /** Final lines that report an error, section 5.7 of ITU-T V.250 and section 9.2 of
      3GPP TS 27.007. */
  ghost predicate Negative(line: string)
  {
    "ERROR" <= line || "+CMS ERROR:" <= line || "+CME ERROR:" <= line || "NO CARRIER" <= line ||
    "NO ANSWER" <= line || "NO DIALTONE" <= line || "COMMAND NOT SUPPORT" <= line
  }

  ghost predicate Occurs(part: string, line: string)
  {
    exists i :: 0 <= i <= |line| && part <= line[i..]
  }

  /** What a line must look like to answer a command of this kind. */
  ghost predicate Answers(kind: Kind, line: string)
  {
    match kind
    case NoResult => false
    case Numeric => line != "" && '0' <= line[0] <= '9'
    case SingleLine(prefix) => prefix <= line
    case MultiLine(prefix) => prefix <= line
    case AsciiCode =>
      !Occurs("OK", line) && !Occurs("AT", line) && !Occurs(":", line) &&
      forall i :: 0 <= i < |line| ==>
        '0' <= line[i] <= '9' || 'a' <= line[i] <= 'z' || 'A' <= line[i] <= 'Z' || line[i] in "_-.+ "
  }

  ghost predicate Wanted(kind: Kind, line: string)
  {
    Answers(kind, line) && !Positive(line) && !Negative(line)
  }

  /** The lines at these positions, in order. */
  ghost predicate Picks(at: seq<nat>, lines: seq<string>, ls: seq<string>)
  {
    |at| == |lines| && (forall k :: 0 <= k < |at| ==> at[k] < |ls| && lines[k] == ls[at[k]]) &&
    forall j, k :: 0 <= j < k < |at| ==> at[j] < at[k]
  }

  /** These are the positions of the wanted lines of `ls`. */
  ghost predicate AtWanted(at: seq<nat>, kind: Kind, ls: seq<string>)
  {
    forall i :: 0 <= i < |ls| ==> (i in at <==> Wanted(kind, ls[i]))
  }

  /** All wanted lines of `ls`. */
  ghost predicate AllWanted(kind: Kind, lines: seq<string>, ls: seq<string>)
  {
    exists at: seq<nat> :: Picks(at, lines, ls) && AtWanted(at, kind, ls)
  }

  /** The first wanted line of `ls`, if there is one. */
  ghost predicate FirstWanted(kind: Kind, lines: seq<string>, ls: seq<string>)
  {
    (lines == [] && forall i :: 0 <= i < |ls| ==> !Wanted(kind, ls[i])) ||
    exists i :: 0 <= i < |ls| && lines == [ls[i]] && Wanted(kind, ls[i]) &&
      forall j :: 0 <= j < i ==> !Wanted(kind, ls[j])
  }

  /** The last final line of `ls` is the one stored, and success is what it says. */
  ghost predicate LastFinal(r: Response, ls: seq<string>)
  {
    exists i :: 0 <= i < |ls| && r.final == Some(ls[i]) &&
      (r.success <==> Positive(ls[i])) && (!r.success <==> Negative(ls[i])) &&
      forall j :: i < j < |ls| ==> !Positive(ls[j]) && !Negative(ls[j])
  }

  /** The lines of a call without the first `CONNECT`, which sends raw data, and the first
      prompt, which sends the PDU. */
  function Heard(c: Call): seq<string>
  {
    Without(Without(c.window, c.before.raw.Some?, "CONNECT"), c.req.pdu.Some?, "> ")
  }

  /** The response is made of the lines that the call has heard. */
  ghost predicate MadeOf(c: Call, r: Response)
  {
    LastFinal(r, Heard(c)) &&
    if c.req.kind.MultiLine? then AllWanted(c.req.kind, r.lines, Heard(c))
    else FirstWanted(c.req.kind, r.lines, Heard(c))
  }

  // ----- the reference description says the same -----

  lemma FinalSpelled(line: string)
    ensures IsSuccess(line) <==> Positive(line)
    ensures IsError(line) <==> Negative(line)
    ensures !(Positive(line) && Negative(line))
  {
    TablesSpelled(line);
    FinalTablesDisjoint(line);
  }

  lemma OccursIsContains(part: string, line: string)
    ensures Occurs(part, line) <==> Contains(line, part)
  {
    if Occurs(part, line) {
      var i :| 0 <= i <= |line| && part <= line[i..];
      assert OccursAt(line, part, i);
    }
    if Contains(line, part) {
      var i :| 0 <= i <= |line| && OccursAt(line, part, i);
      assert part <= line[i..];
    }
  }

  lemma CodeCharSpelled(c: char)
    ensures IsCodeChar(c) <==>
              '0' <= c <= '9' || 'a' <= c <= 'z' || 'A' <= c <= 'Z' || c in "_-.+ "
  {
  }

  lemma AnswersIsMatches(kind: Kind, line: string)
    ensures Answers(kind, line) <==> Matches(kind, line)
  {
    if kind.AsciiCode? {
      OccursIsContains("OK", line);
      OccursIsContains("AT", line);
      OccursIsContains(":", line);
      forall i | 0 <= i < |line| { CodeCharSpelled(line[i]); }
    }
  }

  lemma WantedSpelled(kind: Kind, line: string)
    ensures Wanted(kind, line) <==> !IsFinal(line) && Matches(kind, line)
  {
    AnswersIsMatches(kind, line);
    FinalSpelled(line);
  }

  /** What a line does to the channel: without a command it goes to the handler; with one it sends
      the raw data, ends the response, sends the PDU, answers the command, or goes to the handler,
      in that order, and what ends the response is copied to the handler in proxy mode. */
  lemma LineSpelled(c: Chan, line: string)
    ensures var heard := c.(unsol := c.unsol + [line]);
            if c.pending.None? then ProcessLine(c, line) == heard
            else
              var p := c.pending.value;
              if c.raw.Some? && line == "CONNECT" then
                ProcessLine(c, line) == c.(raw := None, raws := c.raws + [c.raw.value])
              else if Positive(line) || Negative(line) then
                ProcessLine(c, line) ==
                (if c.proxy then heard else c).(
                  pending := Some(p.(response := Response(Positive(line), Some(line), p.response.lines))))
              else if p.pdu.Some? && line == "> " then
                ProcessLine(c, line) == c.(pending := Some(p.(pdu := None)), pdus := c.pdus + [p.pdu.value])
              else if Answers(p.kind, line) && (p.kind.MultiLine? || p.response.lines == []) then
                ProcessLine(c, line) ==
                c.(pending := Some(p.(response := p.response.(lines := p.response.lines + [line]))))
              else ProcessLine(c, line) == heard
  {
    FinalSpelled(line);
    if c.pending.Some? { AnswersIsMatches(c.pending.value.kind, line); }
    assert c.unsol + [] == c.unsol;
  }

  lemma PicksSnoc(at: seq<nat>, lines: seq<string>, ls: seq<string>, x: string, more: bool)
    requires Picks(at, lines, ls)
    ensures if more then Picks(at + [|ls|], lines + [x], ls + [x]) else Picks(at, lines, ls + [x])
  {
  }

  lemma AtWantedSnoc(at: seq<nat>, kind: Kind, ls: seq<string>, x: string)
    requires AtWanted(at, kind, ls) && forall k :: 0 <= k < |at| ==> at[k] < |ls|
    ensures AtWanted(if Wanted(kind, x) then at + [|ls|] else at, kind, ls + [x])
  {
    var at', all := if Wanted(kind, x) then at + [|ls|] else at, ls + [x];
    forall i | 0 <= i < |all| ensures i in at' <==> Wanted(kind, all[i]) {
      if i < |ls| {
        assert all[i] == ls[i] && (i in at' <==> i in at);
      } else {
        assert i !in at;
      }
    }
  }

  lemma {:induction false} CandidatesAllWanted(kind: Kind, ls: seq<string>) returns (at: seq<nat>)
    ensures Picks(at, Candidates(kind, ls), ls) && AtWanted(at, kind, ls)
  {
    at := [];
    if ls != [] {
      var init, x := ls[..|ls| - 1], Last(ls);
      assert ls == init + [x];
      var before := CandidatesAllWanted(kind, init);
      PicksSnoc(before, Candidates(kind, init), init, x, Wanted(kind, x));
      AtWantedSnoc(before, kind, init, x);
      WantedSpelled(kind, x);
      at := if Wanted(kind, x) then before + [|init|] else before;
    }
  }

  lemma AcceptedFirstWanted(kind: Kind, ls: seq<string>)
    requires !kind.MultiLine?
    ensures FirstWanted(kind, Accepted(kind, ls), ls)
  {
    var at := CandidatesAllWanted(kind, ls);
    if at != [] {
      var i := at[0];
      assert i in at && Wanted(kind, ls[i]) && Accepted(kind, ls) == [ls[i]];
      assert forall k :: 0 <= k < |at| ==> i <= at[k];
      assert forall j :: 0 <= j < i ==> j !in at;
    }
  }

  lemma {:induction false} LastOfFinals(ls: seq<string>) returns (i: nat)
    requires Finals(ls) != []
    ensures i < |ls| && Last(Finals(ls)) == ls[i] && IsFinal(ls[i])
    ensures forall j :: i < j < |ls| ==> !IsFinal(ls[j])
  {
    var init := ls[..|ls| - 1];
    if IsFinal(Last(ls)) {
      i := |ls| - 1;
    } else {
      i := LastOfFinals(init);
      assert forall j :: 0 <= j < |init| ==> init[j] == ls[j];
    }
  }

  /** Whatever the reference description gives a call that has a final line is made of the lines
      it has heard. */
  lemma ExpectedIsMadeOf(c: Call)
    requires ExpectedResponse(c).final.Some?
    ensures MadeOf(c, ExpectedResponse(c))
  {
    var ls := Untriggered(c);
    assert Heard(c) == ls;
    var i := LastOfFinals(ls);
    FinalSpelled(ls[i]);
    forall j | i < j < |ls| ensures !Positive(ls[j]) && !Negative(ls[j]) { FinalSpelled(ls[j]); }
    assert LastFinal(ExpectedResponse(c), ls);
    if c.req.kind.MultiLine? {
      var at := CandidatesAllWanted(c.req.kind, ls);
    } else {
      AcceptedFirstWanted(c.req.kind, ls);
    }
  }
}
