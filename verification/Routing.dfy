/** Where the lines of a whole run go. */
module Routing {
  import opened CText
  import opened Classify
  import opened Protocol
  import opened ProtocolRuns

  // ----- order -----

  /** `a` is `b` with some elements left out. */
  ghost predicate Subsequence<T>(a: seq<T>, b: seq<T>)
    decreases |b|
  {
    a == [] ||
    (b != [] && ((Last(a) == Last(b) && Subsequence(a[..|a| - 1], b[..|b| - 1])) || Subsequence(a, b[..|b| - 1])))
  }

  lemma SubsequenceSnoc<T>(a: seq<T>, b: seq<T>, x: T)
    requires Subsequence(a, b)
    ensures Subsequence(a, b + [x]) && Subsequence(a + [x], b + [x])
  {
    SnocSlice(a, x);
    SnocSlice(b, x);
  }

  // ----- what the calls of a run took -----

  /** The calls that have ended, and the open one. */
  function AllCalls(s: Sys): seq<Call>
  {
    EndedCalls(s.outcomes) + if s.thread.Waiting? then [s.thread.call] else []
  }

  function FinalsOf(cs: seq<Call>): multiset<string>
  {
    if cs == [] then multiset{} else FinalsOf(cs[..|cs| - 1]) + multiset(Finals(Untriggered(Last(cs))))
  }

  function IntermediatesOf(cs: seq<Call>): multiset<string>
  {
    if cs == [] then multiset{} else IntermediatesOf(cs[..|cs| - 1]) + multiset(ExpectedResponse(Last(cs)).lines)
  }

  function CallTriggers(c: Call): multiset<string>
  {
    Fired(c.before.raw.Some?, c.window, CONNECT) + Fired(c.req.pdu.Some?, c.window, PROMPT)
  }

  function TriggersOf(cs: seq<Call>): multiset<string>
  {
    if cs == [] then multiset{} else TriggersOf(cs[..|cs| - 1]) + CallTriggers(Last(cs))
  }

  /** However often a line was processed, and in proxy mode copied as a final, it is shared out
      among the handler, the finals, the intermediates and the triggers of the calls. */
  ghost predicate SharedOut(lines: seq<string>, unsol: seq<string>, cs: seq<Call>, proxy: bool, x: string)
  {
    multiset(lines)[x] + (if proxy then FinalsOf(cs)[x] else 0) ==
    multiset(unsol)[x] + FinalsOf(cs)[x] + IntermediatesOf(cs)[x] + TriggersOf(cs)[x]
  }

  ghost predicate Balanced(lines: seq<string>, unsol: seq<string>, cs: seq<Call>, proxy: bool)
  {
    forall x: string :: SharedOut(lines, unsol, cs, proxy, x)
  }

  /** The PDUs that came with the commands. */
  function PdusOf(rs: seq<Request>): seq<string>
  {
    if rs == [] then []
    else PdusOf(rs[..|rs| - 1]) + if Last(rs).pdu.Some? then [Last(rs).pdu.value] else []
  }

  // ----- one call -----

  lemma SumsSnoc(cs: seq<Call>, c: Call)
    ensures FinalsOf(cs + [c]) == FinalsOf(cs) + multiset(Finals(Untriggered(c)))
    ensures IntermediatesOf(cs + [c]) == IntermediatesOf(cs) + multiset(ExpectedResponse(c).lines)
    ensures TriggersOf(cs + [c]) == TriggersOf(cs) + CallTriggers(c)
  {
    SnocSlice(cs, c);
  }

  /** The lines of one call, counted. */
  lemma CallShares(c: Call, x: string)
    ensures var f := multiset(Finals(Untriggered(c)))[x];
            multiset(c.window)[x] + (if c.before.proxy then f else 0) ==
            f + multiset(ExpectedResponse(c).lines)[x] + CallTriggers(c)[x] +
            multiset(Leftover(c.req.kind, c.before.proxy, Untriggered(c)))[x]
  {
    CallPartition(c);
    var ls := Untriggered(c);
    var fs := multiset(Finals(ls));
    assert (multiset(c.window) + (if c.before.proxy then fs else multiset{}))[x] ==
           (fs + multiset(ExpectedResponse(c).lines) + multiset(Leftover(c.req.kind, c.before.proxy, ls))
            + Fired(c.before.raw.Some?, c.window, CONNECT) + Fired(c.req.pdu.Some?, c.window, PROMPT))[x];
  }

  lemma BalancedCall(lines: seq<string>, c: Call, cs: seq<Call>)
    requires Balanced(lines, c.before.unsol, cs, c.before.proxy)
    ensures Balanced(lines + c.window, Expected(c).unsol, cs + [c], c.before.proxy)
  {
    SumsSnoc(cs, c);
    forall x ensures SharedOut(lines + c.window, Expected(c).unsol, cs + [c], c.before.proxy, x) {
      assert SharedOut(lines, c.before.unsol, cs, c.before.proxy, x);
      CallShares(c, x);
    }
  }

  lemma BalancedIdleLine(lines: seq<string>, unsol: seq<string>, cs: seq<Call>, proxy: bool, line: string)
    requires Balanced(lines, unsol, cs, proxy)
    ensures Balanced(lines + [line], unsol + [line], cs, proxy)
  {
    forall x ensures SharedOut(lines + [line], unsol + [line], cs, proxy, x) {
      assert SharedOut(lines, unsol, cs, proxy, x);
    }
  }

  // ----- the whole run -----

  /** The balance up to the open call, and the open call's own lines behind it. */
  ghost predicate BalancedAt(lines: seq<string>, s: Sys, proxy: bool)
  {
    var cs := EndedCalls(s.outcomes);
    s.chan.proxy == proxy &&
    match s.thread
    case Idle => Balanced(lines, s.chan.unsol, cs, proxy)
    case Waiting(c, _) => OpenBalance(lines, c, cs, proxy)
  }

  /** The handler's lines and the written PDUs keep the order in which they came. */
  ghost predicate OrderedAt(es: seq<Event>, s: Sys)
  {
    var rs := Commands(es);
    Subsequence(s.chan.unsol, LinesIn(es)) &&
    match s.thread
    case Idle => Subsequence(s.chan.pdus, PdusOf(rs))
    case Waiting(c, _) => rs != [] && Last(rs) == c.req && Subsequence(c.before.pdus, PdusOf(rs[..|rs| - 1]))
  }

  lemma LinesSnoc(es: seq<Event>, e: Event)
    ensures LinesIn(es + [e]) == LinesIn(es) + if e.Line? then [e.line] else []
  {
    SnocSlice(es, e);
  }

  /** The window as the end of a list of lines. */
  ghost predicate OpenBalance(lines: seq<string>, c: Call, cs: seq<Call>, proxy: bool)
  {
    c.before.proxy == proxy && |c.window| <= |lines| && lines[|lines| - |c.window|..] == c.window &&
    Balanced(lines[..|lines| - |c.window|], c.before.unsol, cs, proxy)
  }

  lemma OpenBalanceLine(lines: seq<string>, c: Call, cs: seq<Call>, proxy: bool, x: string)
    requires OpenBalance(lines, c, cs, proxy)
    ensures OpenBalance(lines + [x], c.(window := c.window + [x]), cs, proxy)
  {
    var n := |lines| - |c.window|;
    SuffixSnoc(lines, c.window, x);
    assert Balanced((lines + [x])[..n], c.before.unsol, cs, proxy);
  }

  lemma SuffixSnoc<T>(s: seq<T>, end: seq<T>, x: T)
    requires |end| <= |s| && s[|s| - |end|..] == end
    ensures var n := |s| - |end|;
            (s + [x])[..n] == s[..n] && (s + [x])[n..] == end + [x] && |s + [x]| - |end + [x]| == n
  {
    var n := |s| - |end|;
    assert (s + [x])[n..] == s[n..] + [x];
  }

  lemma OpenBalanceStarts(lines: seq<string>, c: Call, cs: seq<Call>, proxy: bool)
    requires Balanced(lines, c.before.unsol, cs, proxy) && c.window == [] && c.before.proxy == proxy
    ensures OpenBalance(lines, c, cs, proxy)
  {
    assert lines[..|lines|] == lines;
  }

  lemma OpenBalanceCloses(lines: seq<string>, c: Call, cs: seq<Call>, proxy: bool)
    requires OpenBalance(lines, c, cs, proxy)
    ensures Balanced(lines, Expected(c).unsol, cs + [c], proxy)
  {
    var first := lines[..|lines| - |c.window|];
    assert lines == first + c.window;
    BalancedCall(first, c, cs);
  }

  lemma BalanceLine(lines: seq<string>, m: Sys, x: string, proxy: bool)
    requires BalancedAt(lines, m, proxy) && Inv(m)
    ensures BalancedAt(lines + [x], Step(m, Line(x)), proxy)
  {
    match m.thread
    case Idle => BalancedIdleLine(lines, m.chan.unsol, EndedCalls(m.outcomes), proxy, x);
    case Waiting(c, _) =>
      OpenBalanceLine(lines, c, EndedCalls(m.outcomes), proxy, x);
      ProxyStays(m.chan, x);
  }

  lemma ProxyStays(c: Chan, x: string)
    ensures ProcessLine(c, x).proxy == c.proxy
  {
  }

  /** The issuer's steps: a call closes, is refused, opens or goes on waiting. */
  lemma BalanceIssuer(lines: seq<string>, m: Sys, e: Event, proxy: bool)
    requires BalancedAt(lines, m, proxy) && Inv(m) && Enabled(m, e) && !e.Line?
    ensures BalancedAt(lines, Step(m, e), proxy)
  {
    var s, cs := Step(m, e), EndedCalls(m.outcomes);
    if s.outcomes == m.outcomes {
      if e.Issue? { OpenBalanceStarts(lines, s.thread.call, cs, proxy); }
    } else {
      match m.thread
      case Idle => RefusedTakesNothing(m, e);
      case Waiting(c, _) =>
        OpenBalanceCloses(lines, c, cs, proxy);
        EndsWithCall(m, e);
    }
  }

  lemma RefusedTakesNothing(m: Sys, e: Event)
    requires m.thread.Idle? && Enabled(m, e) && Step(m, e).outcomes != m.outcomes
    ensures var s := Step(m, e);
            s.thread.Idle? && s.chan.unsol == m.chan.unsol && s.chan.proxy == m.chan.proxy &&
            EndedCalls(s.outcomes) == EndedCalls(m.outcomes)
  {
    var o := EndedOutcome(m, e);
    EndedCallsSnoc(m.outcomes, o);
    assert EndedCalls(m.outcomes) + [] == EndedCalls(m.outcomes);
  }

  lemma EndsWithCall(m: Sys, e: Event)
    requires m.thread.Waiting? && Inv(m) && Enabled(m, e) && !e.Line? && Step(m, e).outcomes != m.outcomes
    ensures var s, c := Step(m, e), m.thread.call;
            s.thread.Idle? && s.chan.unsol == Expected(c).unsol && s.chan.proxy == c.before.proxy &&
            EndedCalls(s.outcomes) == EndedCalls(m.outcomes) + [c]
  {
    var o := EndedOutcome(m, e);
    EndedCallsSnoc(m.outcomes, o);
  }

  /** A line reaches the handler at most once, behind those before it. */
  lemma HeardInOrder(c: Chan, x: string, lines: seq<string>)
    requires Subsequence(c.unsol, lines)
    ensures Subsequence(ProcessLine(c, x).unsol, lines + [x])
  {
    SubsequenceSnoc(c.unsol, lines, x);
    HeardOrNot(c, x);
  }

  lemma HeardOrNot(c: Chan, x: string)
    ensures ProcessLine(c, x).unsol == c.unsol || ProcessLine(c, x).unsol == c.unsol + [x]
  {
    assert c.unsol + [] == c.unsol;
  }

  lemma PdusSnoc(rs: seq<Request>, r: Request)
    ensures PdusOf(rs + [r]) == PdusOf(rs) + if r.pdu.Some? then [r.pdu.value] else []
  {
    SnocSlice(rs, r);
  }

  /** The PDUs written by the end of the open call. */
  lemma OpenCallPdus(es: seq<Event>, s: Sys)
    requires OrderedAt(es, s) && Inv(s) && s.thread.Waiting?
    ensures Subsequence(s.chan.pdus, PdusOf(Commands(es)))
  {
    var rs, c := Commands(es), s.thread.call;
    var init := rs[..|rs| - 1];
    assert rs == init + [c.req];
    PdusSnoc(init, c.req);
    assert c.before.pdus + [] == c.before.pdus && PdusOf(init) + [] == PdusOf(init);
    if c.req.pdu.Some? { SubsequenceSnoc(c.before.pdus, PdusOf(init), c.req.pdu.value); }
  }

  lemma OrderStep(p: seq<Event>, m: Sys, e: Event)
    requires OrderedAt(p, m) && Inv(m) && Enabled(m, e)
    ensures OrderedAt(p + [e], Step(m, e))
  {
    LinesSnoc(p, e);
    CountsSnoc(p, e);
    match e
    case Line(x) =>
      HeardInOrder(m.chan, x, LinesIn(p));
      assert Commands(p + [e]) == Commands(p);
    case Issue(req, err) =>
      assert LinesIn(p + [e]) == LinesIn(p);
      if Step(m, e).thread.Waiting? {
        SnocSlice(Commands(p), req);
      } else {
        assert Commands(p + [e]) == Commands(p);
      }
    case _ =>
      assert LinesIn(p + [e]) == LinesIn(p) && Commands(p + [e]) == Commands(p);
      OpenCallPdus(p, m);
  }

  lemma {:induction false} RunsAreBalanced(raw: Option<string>, proxy: bool, es: seq<Event>, s: Sys)
    requires Run(Start(raw, proxy), es) == Some(s)
    ensures BalancedAt(LinesIn(es), s, proxy) && OrderedAt(es, s)
  {
    if es != [] {
      var p, e := es[..|es| - 1], Last(es);
      var m := Run(Start(raw, proxy), p).value;
      assert es == p + [e];
      RunsAreBalanced(raw, proxy, p, m);
      RunsAreLocated(Start(raw, proxy), p, m);
      LinesSnoc(p, e);
      if e.Line? {
        BalanceLine(LinesIn(p), m, e.line, proxy);
      } else {
        BalanceIssuer(LinesIn(p), m, e, proxy);
        assert LinesIn(es) == LinesIn(p);
      }
      OrderStep(p, m, e);
    }
  }

  /** In every run, every line processed, during calls or between them, goes to exactly one
      place: the handler, or a final, an intermediate or a trigger of one of the calls, be it
      delivered, timed out or still open.  Proxy mode copies the finals to the handler and
      nothing else; the handler hears its lines in order; and the PDUs written are some of
      those that came with the commands, each at most once and in order. */
  lemma RoutingConserves(raw: Option<string>, proxy: bool, es: seq<Event>, s: Sys)
    requires Run(Start(raw, proxy), es) == Some(s)
    ensures Balanced(LinesIn(es), s.chan.unsol, AllCalls(s), proxy)
    ensures Subsequence(s.chan.unsol, LinesIn(es))
    ensures Subsequence(s.chan.pdus, PdusOf(Commands(es)))
  {
    RunsAreBalanced(raw, proxy, es, s);
    RunsAreLocated(Start(raw, proxy), es, s);
    if s.thread.Waiting? {
      OpenBalanceCloses(LinesIn(es), s.thread.call, EndedCalls(s.outcomes), proxy);
      OpenCallPdus(es, s);
    } else {
      assert EndedCalls(s.outcomes) + [] == EndedCalls(s.outcomes);
    }
  }
}
