/** A final line that replaces another one: the string of the first is never released. */
module LostString {
  import opened CText
  import opened Classify
  import opened Protocol
  import opened ResponseList
  import opened Channel
  import ProtocolRuns
  import Wire
  import TimedWait

  /** Two final lines before the issuer wakes. */
  lemma RunOfTwo(s: Sys, req: Request, a: string, b: string)
    requires s.thread.Idle? && s.chan.pending.None? && s.chan.raw.None? && req.pdu.None? && IsFinal(a) && IsFinal(b)
    ensures var m := Run(s, [Issue(req, 0), Line(a), Line(b), Wake]);
            m.Some? && m.value.thread.Idle? &&
            m.value.outcomes == s.outcomes +
              [Delivered(Call(req, s.chan, [a, b]), Response(IsSuccess(b), Some(b), []))]
  {
    var e1, e2, e3 := [Issue(req, 0)], [Issue(req, 0), Line(a)], [Issue(req, 0), Line(a), Line(b)];
    FinalTablesDisjoint(a);
    FinalTablesDisjoint(b);
    RunSnoc(s, [], Issue(req, 0));
    assert [] + [Issue(req, 0)] == e1;
    RunSnoc(s, e1, Line(a));
    assert e1 + [Line(a)] == e2 && [] + [a] == [a];
    RunSnoc(s, e2, Line(b));
    assert e2 + [Line(b)] == e3 && [a] + [b] == [a, b];
    var s3 := Run(s, e3).value;
    assert s3.thread == Waiting(Call(req, s.chan, [a, b]), 0);
    assert s3.chan.pending.value.response == Response(IsSuccess(b), Some(b), []);
    RunSnoc(s, e3, Wake);
    assert e3 + [Wake] == [Issue(req, 0), Line(a), Line(b), Wake];
  }

  lemma EventsOfTwo(a: string, b: string)
    ensures RoundEvents([Round([a, b], false)]) == [Line(a), Line(b), Wake]
  {
    LineEventsSnoc([a, b], 0);
    LineEventsSnoc([a, b], 1);
    assert [a, b][..0] == [] && [a, b][..2] == [a, b];
    assert [Round([a, b], false)] == [] + [Round([a, b], false)];
    RoundEventsSnoc([], Round([a, b], false));
  }

  lemma RoundEventsCons(r: Round, rs: seq<Round>)
    ensures RoundEvents([r] + rs) == LineEvents(r.lines) + [EndOf(r.expires)] + RoundEvents(rs)
  {
    RoundEventsConcat([r], rs);
    RoundEventsSnoc([], r);
    assert [] + [r] == [r];
  }

  lemma NothingToWake(t: Sys, e: Event, es: seq<Event>)
    requires t.thread.Idle? && (e.Wake? || e.SliceTimeout?)
    ensures Run(t, [e] + es).None?
  {
    RunSnoc(t, [], e);
    assert [] + [e] == [e];
    RunConcat(t, [e], es);
  }

  /** Once the call has ended no round can follow. */
  lemma NoRoundAfter(t: Sys, rs: seq<Round>)
    requires t.thread.Idle? && rs != [] && rs[0].lines == []
    ensures Run(t, RoundEvents(rs)).None?
  {
    assert rs == [rs[0]] + rs[1..];
    RoundEventsCons(rs[0], rs[1..]);
    var e := EndOf(rs[0].expires);
    assert LineEvents([]) + [e] + RoundEvents(rs[1..]) == [e] + RoundEvents(rs[1..]);
    NothingToWake(t, e, RoundEvents(rs[1..]));
  }

  lemma StillWaiting(s: Sys, req: Request)
    requires s.thread.Idle? && s.chan.pending.None?
    ensures Run(s, [Issue(req, 0)] + []).Some? && Run(s, [Issue(req, 0)] + []).value.thread.Waiting?
  {
    assert [Issue(req, 0)] + [] == [] + [Issue(req, 0)];
    RunSnoc(s, [], Issue(req, 0));
  }

  /** The call has met exactly the one round. */
  lemma RoundMet(s: Sys, req: Request, a: string, b: string, now: seq<Round>, rs: seq<Round>)
    requires s.thread.Idle? && s.chan.pending.None? && s.chan.raw.None? && req.pdu.None? && IsFinal(a) && IsFinal(b)
    requires AllMet([Round([a, b], false)], now, rs)
    requires Run(s, [Issue(req, 0)] + RoundEvents(rs)).Some? &&
             Run(s, [Issue(req, 0)] + RoundEvents(rs)).value.thread.Idle?
    ensures rs == [Round([a, b], false)]
    ensures [Issue(req, 0)] + RoundEvents(rs) == [Issue(req, 0), Line(a), Line(b), Wake]
  {
    var r := Round([a, b], false);
    StillWaiting(s, req);
    assert rs != [] && rs[0] == r && rs == [r] + rs[1..];
    EventsAfterTwo(Issue(req, 0), a, b, rs[1..]);
    EventsAfterTwo(Issue(req, 0), a, b, []);
    RunOfTwo(s, req, a, b);
    OverWith(s, [Issue(req, 0), Line(a), Line(b), Wake], now, rs[1..]);
  }

  lemma EventsAfterTwo(e: Event, a: string, b: string, rest: seq<Round>)
    ensures [e] + RoundEvents([Round([a, b], false)] + rest) == [e, Line(a), Line(b), Wake] + RoundEvents(rest)
    ensures rest == [] ==> [e] + RoundEvents([Round([a, b], false)] + rest) == [e, Line(a), Line(b), Wake]
  {
    EventsOfTwo(a, b);
    RoundEventsConcat([Round([a, b], false)], rest);
    assert [e] + ([Line(a), Line(b), Wake] + RoundEvents(rest)) == [e, Line(a), Line(b), Wake] + RoundEvents(rest);
  }

  lemma OverWith(s: Sys, all: seq<Event>, now: seq<Round>, rest: seq<Round>)
    requires Run(s, all).Some? && Run(s, all).value.thread.Idle? && AllMet([], now, rest)
    ensures rest != [] ==> Run(s, all + RoundEvents(rest)).None?
  {
    if rest != [] {
      RunConcat(s, all, RoundEvents(rest));
      NoRoundAfter(Run(s, all).value, rest);
    }
  }

  lemma TwoFinals(c: Call, a: string, b: string)
    requires c.window == [a, b] && c.before.raw.None? && c.req.pdu.None? && IsFinal(a) && IsFinal(b)
    ensures Finals(Untriggered(c)) == [a, b]
  {
    assert Untriggered(c) == [a, b];
    assert [] + [a] == [a] && [a] + [b] == [a, b];
    FiltersSnoc(c.req.kind, false, [], a);
    FiltersSnoc(c.req.kind, false, [a], b);
  }

  /** Without a failing write and with nothing pending a command is not refused. */
  lemma NotRefused(s: Sys, e: Event, req: Request, s': Sys, o: Outcome, now: seq<Wire.WriteEvent>,
                   before: string, after: string)
    requires s.thread.Idle? && s.chan.pending.None? && e.Issue? && e.req == req
    requires o.Refused? ==>
               Run(s, [e] + []) == Some(s') && s'.outcomes == s.outcomes + [o] && o.err != AT_ERROR_COMMAND_PENDING
    requires Sent(req, o, [], now, before, after)
    ensures !o.Refused?
  {
    if o.Refused? {
      assert [e] + [] == [] + [e];
      RunSnoc(s, [], e);
    }
  }

  /** What the call of such a run is. */
  lemma CallOfTwo(s: Sys, req: Request, a: string, b: string, now: seq<Round>, rs: seq<Round>, s': Sys, o: Outcome)
    requires s.thread.Idle? && s.chan.pending.None? && s.chan.raw.None? && req.pdu.None? && IsFinal(a) && IsFinal(b)
    requires AllMet([Round([a, b], false)], now, rs) && s'.thread.Idle?
    requires Run(s, [Issue(req, 0)] + RoundEvents(rs)) == Some(s') && s'.outcomes == s.outcomes + [o]
    ensures o == Delivered(Call(req, s.chan, [a, b]), Response(IsSuccess(b), Some(b), [])) && Replaced(o) == [a]
  {
    RoundMet(s, req, a, b, now, rs);
    RunOfTwo(s, req, a, b);
    SnocSlice(s.outcomes, o);
    SnocSlice(s.outcomes, Delivered(Call(req, s.chan, [a, b]), Response(IsSuccess(b), Some(b), [])));
    TwoFinals(o.call, a, b);
  }

  /** For any command and any two final lines: when both come before the issuer wakes, the call
      succeeds with the second, and the string of the first stays allocated for good. */
  method FirstFinalIsLost(command: Option<string>, a: string, b: string)
      returns (err: int, out: ATResponse?, ghost r: ATResponse?)
    requires (command.Some? ==> NulFree(command.value)) && IsFinal(a) && IsFinal(b)
    ensures err == 0 && out != null && r == out && out.FinalLine() == Some(b)
    ensures Chars(r.lost) == [a] && r.lost[0] !in out.Owned() && r.heap.live == out.Owned() + {r.lost[0]}
  {
    var req := Request(command, NoResult, None, 0);
    TimedWait.ShortWaitsDoNotWrap(Msecs(req));
    var wire := new Wire.Line([]);
    var c := new Static(false, None, wire, [Round([a, b], false)]);
    ghost var s, e, rs, s', o := Start(None, false), Issue(req, 0), [], Start(None, false), Refused(req, 0);
    err, out, e, rs, s', o, r := c.SendCommandFull(req, true, s);
    NotRefused(s, e, req, s', o, wire.events, "", wire.sent);
    CallOfTwo(s, req, a, b, c.rounds, rs, s', o);
    OnlyOneLost(r.lost, a);
  }

  lemma OnlyOneLost(lost: seq<Text>, a: string)
    requires Chars(lost) == [a]
    ensures |lost| == 1 && (set t: object | t in lost) == {lost[0]}
  {
    var t := lost[0];
    assert lost == [t];
    assert forall x: object :: x in [t] <==> x == t;
  }
}
