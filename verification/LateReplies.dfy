/** When the call after a given moment can be handed an earlier command's final line. */
module LateReplies {
  import opened CText
  import opened Classify
  import opened Protocol
  import opened ProtocolRuns

  /** The next call, from an idle state to its own return. */
  ghost predicate NextCall(s: Sys, es: seq<Event>, d: Outcome)
  {
    es != [] && Last(es) == Wake && d.Delivered? &&
    var t := Run(s, es);
    t.Some? && t.value.thread.Idle? && t.value.outcomes == s.outcomes + [d]
  }

  /** The call is handed the last final line so far, and the final lines up to that one are no
      more than the commands before the call: counted out in order, it is the answer to one of
      those. */
  ghost predicate GivenEarlierFinal(past: seq<Event>, s: Sys, es: seq<Event>, d: Outcome)
  {
    NextCall(s, es, d) && OneFinalPerCommand(past + es) &&
    FinalsIn(past + es) != [] && d.response.final == Some(Last(FinalsIn(past + es))) &&
    |FinalsIn(past + es)| <= |Commands(past)|
  }

  // ----- a call that is on its way -----

  lemma {:induction false} PromptChangesNoFinals(ls: seq<string>)
    ensures Finals(RemoveFirst(ls, PROMPT)) == Finals(ls)
  {
    PromptIsNotFinal();
    if ls != [] {
      var t := ls[..|ls| - 1];
      PromptChangesNoFinals(t);
      if PROMPT in t { SnocSlice(RemoveFirst(t, PROMPT), Last(ls)); }
    }
  }

  /** Until the call returns: no command but its own has been written since, and the finals of
      its window are the last ones of the run. */
  ghost predicate OnItsWay(past: seq<Event>, all: seq<Event>, t: Sys)
  {
    t.chan.raw.None? && |FinalsIn(past)| <= |FinalsIn(all)| &&
    match t.thread
    case Idle => Commands(all) == Commands(past)
    case Waiting(c, _) =>
      var fs := Finals(c.window);
      c.before.raw.None? && Commands(all) == Commands(past) + [c.req] &&
      |FinalsIn(past)| + |fs| <= |FinalsIn(all)| && (fs != [] ==> Last(fs) == Last(FinalsIn(all)))
  }

  lemma OnItsWayLine(past: seq<Event>, all: seq<Event>, t: Sys, line: string)
    requires OnItsWay(past, all, t) && Inv(t)
    ensures OnItsWay(past, all + [Line(line)], Step(t, Line(line)))
  {
    CountsSnoc(all, Line(line));
    assert Commands(all + [Line(line)]) == Commands(all);
    if t.thread.Waiting? { SnocSlice(t.thread.call.window, line); }
  }

  lemma OnItsWayStep(past: seq<Event>, all: seq<Event>, t: Sys, e: Event)
    requires OnItsWay(past, all, t) && Inv(t) && Enabled(t, e) && Step(t, e).outcomes == t.outcomes
    ensures OnItsWay(past, all + [e], Step(t, e))
  {
    if e.Line? {
      OnItsWayLine(past, all, t, e.line);
    } else {
      CountsSnoc(all, e);
      assert FinalsIn(all + [e]) == FinalsIn(all);
      if !e.Issue? { assert Commands(all + [e]) == Commands(all); }
    }
  }

  lemma {:induction false} StaysOnItsWay(past: seq<Event>, s: Sys, es: seq<Event>, t: Sys)
    requires Inv(s) && s.thread.Idle? && s.chan.raw.None?
    requires Run(s, es) == Some(t) && t.outcomes == s.outcomes
    ensures OnItsWay(past, past + es, t) && Inv(t)
  {
    if es == [] {
      assert past + es == past;
    } else {
      var p, e := es[..|es| - 1], Last(es);
      var m := Run(s, p).value;
      assert past + es == (past + p) + [e];
      assert p == es[..|p|];
      OutcomesGrow(s, es, |p|);
      OutcomesGrow(s, es, 0);
      assert es[..0] == [];
      OutcomesGrow(s, p, 0);
      assert p[..0] == [];
      StaysOnItsWay(past, s, p, m);
      StepKeepsInv(m, e);
      OnItsWayStep(past, past + p, m, e);
    }
  }

  /** Without raw data, a call that is given a final line is given the last one of its window. */
  lemma LastOfWindow(c: Call)
    requires c.before.raw.None? && ExpectedResponse(c).final.Some?
    ensures Finals(c.window) != [] && ExpectedResponse(c).final == Some(Last(Finals(c.window)))
  {
    PromptChangesNoFinals(c.window);
  }

  /** The step in which the next call returns. */
  lemma ReturnOfNextCall(s: Sys, es: seq<Event>, d: Outcome) returns (p: seq<Event>, m: Sys)
    requires NextCall(s, es, d)
    ensures es == p + [Wake] && Run(s, p) == Some(m) && Enabled(m, Wake)
    ensures m.outcomes == s.outcomes && Step(m, Wake).outcomes == m.outcomes + [d]
  {
    p := es[..|es| - 1];
    m := Run(s, p).value;
    assert es == p + [Wake];
    var os, t := s.outcomes, Step(m, Wake);
    assert t.outcomes == os + [d];
    OutcomesGrow(s, p, 0);
    assert p[..0] == [];
    StepAppendsOutcome(m, Wake);
    SnocSlice(os, d);
  }

  /** The next call is handed the last final line of the run, one that was processed after its
      own command was written. */
  lemma NextCallGetsLastFinal(past: seq<Event>, s: Sys, es: seq<Event>, d: Outcome)
    requires Inv(s) && s.thread.Idle? && s.chan.raw.None? && NextCall(s, es, d)
    ensures |Commands(past + es)| == |Commands(past)| + 1
    ensures |FinalsIn(past)| < |FinalsIn(past + es)| && d.response.final == Some(Last(FinalsIn(past + es)))
    ensures Finals(d.call.window) != [] && d.response.final == Some(Last(Finals(d.call.window)))
  {
    var p, m := ReturnOfNextCall(s, es, d);
    StaysOnItsWay(past, s, p, m);
    CountsSnoc(past + p, Wake);
    assert past + es == (past + p) + [Wake];
    assert FinalsIn(past + es) == FinalsIn(past + p) && Commands(past + es) == Commands(past + p);
    ReturnedResponse(m, d);
    LastOfWindow(m.thread.call);
  }

  lemma ReturnedResponse(m: Sys, d: Outcome)
    requires Inv(m) && Enabled(m, Wake) && Step(m, Wake).outcomes == m.outcomes + [d]
    ensures d.Delivered? && d.call == m.thread.call && d.response == ExpectedResponse(d.call) && d.response.final.Some?
  {
    assert Last(m.outcomes + [d]) == d;
    assert |Step(m, Wake).outcomes| == |m.outcomes| + 1;
  }

  // ----- both directions -----

  /** With every command answered, the next call can only be handed its own final line. */
  lemma NextCallGetsItsOwn(past: seq<Event>, s: Sys, es: seq<Event>, d: Outcome)
    requires Inv(s) && s.thread.Idle? && s.chan.raw.None? && NextCall(s, es, d)
    requires OneFinalPerCommand(past + es) && |FinalsIn(past)| == |Commands(past)|
    ensures |FinalsIn(past + es)| == |Commands(past)| + 1
    ensures d.response.final == Some(FinalsIn(past + es)[|Commands(past)|])
  {
    NextCallGetsLastFinal(past, s, es, d);
    assert (past + es)[..|past + es|] == past + es;
  }

  lemma StillOneFinalPerCommand(past: seq<Event>, b: Request, f: string)
    requires OneFinalPerCommand(past) && IsFinal(f)
    ensures var all := past + [Issue(b, 0), Line(f), Wake];
            OneFinalPerCommand(all) && FinalsIn(all) == FinalsIn(past) + [f]
  {
    var e1 := past + [Issue(b, 0)];
    var e2 := e1 + [Line(f)];
    var all := past + [Issue(b, 0), Line(f), Wake];
    assert all == e2 + [Wake];
    CountsSnoc(past, Issue(b, 0));
    CountsSnoc(e1, Line(f));
    CountsSnoc(e2, Wake);
    assert past[..|past|] == past;
    forall k | 0 <= k <= |all| ensures |FinalsIn(all[..k])| <= |Commands(all[..k])| {
      if k <= |past| {
        assert all[..k] == past[..k];
      } else {
        assert all[..k] == e1 || all[..k] == e2 || all[..k] == all;
      }
    }
  }

  /** With a command still unanswered, a final line that comes after the next command is
      written goes to the next call, whatever the command and the line. */
  lemma NextCallCanGetEarlier(past: seq<Event>, s: Sys, b: Request, f: string)
    requires Inv(s) && s.thread.Idle? && s.chan.raw.None? && IsFinal(f)
    requires OneFinalPerCommand(past) && |FinalsIn(past)| < |Commands(past)|
    ensures GivenEarlierFinal(past, s, [Issue(b, 0), Line(f), Wake],
                              Delivered(Call(b, s.chan, [f]), Response(IsSuccess(f), Some(f), [])))
  {
    IssueThenReply(s, b, f);
    StillOneFinalPerCommand(past, b, f);
    var es := [Issue(b, 0), Line(f), Wake];
    assert past + es == past + [Issue(b, 0), Line(f), Wake];
    assert Last(es) == Wake && Last(FinalsIn(past) + [f]) == f;
  }

  /** At every idle moment of every run with at most one final line per command: the next call
      can be handed an earlier command's final line if and only if some command is still
      unanswered, which is what a timeout leaves behind. */
  lemma EarlierFinalsExactly(raw: Option<string>, proxy: bool, past: seq<Event>, s: Sys)
    requires Run(Start(raw, proxy), past) == Some(s) && s.thread.Idle? && s.chan.raw.None?
    requires OneFinalPerCommand(past)
    ensures (exists es: seq<Event>, d: Outcome :: GivenEarlierFinal(past, s, es, d))
            <==> |FinalsIn(past)| < |Commands(past)|
  {
    RunsAreLocated(Start(raw, proxy), past, s);
    assert past[..|past|] == past;
    if |FinalsIn(past)| < |Commands(past)| {
      assert IsSuccess("OK") by { assert SUCCESS_FINALS[0] <= "OK"; }
      NextCallCanGetEarlier(past, s, Request(None, NoResult, None, 0), "OK");
    } else {
      forall es: seq<Event>, d: Outcome | GivenEarlierFinal(past, s, es, d) ensures false {
        NextCallGetsItsOwn(past, s, es, d);
      }
    }
  }
}
