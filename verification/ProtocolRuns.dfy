/** Theorems about every run of the command protocol: what each call is given, how calls pair
    with final lines, where every line goes, and what a timed wait can lose. */
module ProtocolRuns {
  import opened CText
  import opened Classify
  import opened Protocol
  import opened Delivered
  import TimedWait

  // ----- the invariant of every reachable state -----

  ghost predicate Sound(o: Outcome)
  {
    match o
    case Delivered(call, response) => response == ExpectedResponse(call) && response.final.Some?
    case TimedOut(call) => true
    case Refused(req, err) => err < 0
  }

  ghost predicate Inv(s: Sys)
  {
    (match s.thread
     case Idle => s.chan.pending.None?
     case Waiting(call, elapsed) =>
       s.chan == Expected(call) && elapsed < Msecs(call.req))
    && forall i :: 0 <= i < |s.outcomes| ==> Sound(s.outcomes[i])
  }

  lemma InstallIsExpected(c: Chan, req: Request)
    requires c.pending.None?
    ensures Install(c, req) == Expected(Call(req, c, []))
  {
    assert c.unsol + [] == c.unsol && c.pdus + [] == c.pdus && c.raws + [] == c.raws;
  }

  /** Every atomic step, by either thread, keeps the invariant. */
  lemma StepKeepsInv(s: Sys, e: Event)
    requires Inv(s) && Enabled(s, e)
    ensures Inv(Step(s, e))
  {
    match e
    case Issue(req, err) => InstallIsExpected(s.chan, req);
    case Line(line) =>
      if s.thread.Waiting? { ExpectedStep(s.thread.call, line); }
    case Wake =>
    case SliceTimeout =>
  }

  // ----- calls located in the run that made them -----

  function LinesIn(es: seq<Event>): seq<string>
  {
    if es == [] then [] else LinesIn(es[..|es| - 1]) + if Last(es).Line? then [Last(es).line] else []
  }

  /** The run has come to a moment between calls: this channel, and n calls behind it. */
  ghost predicate IdleAt(s0: Sys, es: seq<Event>, chan: Chan, n: nat)
  {
    var s := Run(s0, es);
    s.Some? && s.value.thread.Idle? && s.value.chan == chan && |s.value.outcomes| == n
  }

  /** The call was installed by event k, when the channel was as it records and n calls had
      ended; nothing has been issued since, and its window is what was processed since. */
  ghost predicate Open(s0: Sys, es: seq<Event>, k: nat, n: nat, c: Call)
  {
    k < |es| && es[k] == Issue(c.req, 0) && IdleAt(s0, es[..k], c.before, n) &&
    (forall j :: k < j < |es| ==> !es[j].Issue?) && c.window == LinesIn(es[k + 1..])
  }

  /** Outcome number i is that of the call installed by event k: the call was still open before
      event m, and event m ended it. */
  ghost predicate Own(s0: Sys, es: seq<Event>, k: nat, m: nat, i: nat, o: Outcome)
    requires !o.Refused?
  {
    k < m < |es| && Open(s0, es[..m], k, i, o.call) && es[m] == (if o.Delivered? then Wake else SliceTimeout) &&
    var s := Run(s0, es[..m + 1]);
    s.Some? && |s.value.outcomes| == i + 1 && s.value.outcomes[i] == o
  }

  ghost predicate Located(s0: Sys, es: seq<Event>, i: nat, o: Outcome)
  {
    !o.Refused? ==> exists k: nat, m: nat :: Own(s0, es, k, m, i, o)
  }

  ghost predicate AllLocated(s0: Sys, es: seq<Event>, s: Sys)
  {
    (s.thread.Waiting? ==> exists k: nat :: Open(s0, es, k, |s.outcomes|, s.thread.call)) &&
    forall i :: 0 <= i < |s.outcomes| ==> Located(s0, es, i, s.outcomes[i])
  }

  lemma OpenExtends(s0: Sys, p: seq<Event>, e: Event, k: nat, n: nat, c: Call)
    requires Open(s0, p, k, n, c) && !e.Issue?
    ensures Open(s0, p + [e], k, n, if e.Line? then c.(window := c.window + [e.line]) else c)
  {
    var es := p + [e];
    assert es[..k] == p[..k];
    assert es[k + 1..] == p[k + 1..] + [e];
    SnocSlice(p[k + 1..], e);
  }

  lemma OwnExtends(s0: Sys, p: seq<Event>, e: Event, k: nat, m: nat, i: nat, o: Outcome)
    requires !o.Refused? && Own(s0, p, k, m, i, o)
    ensures Own(s0, p + [e], k, m, i, o)
  {
    assert (p + [e])[..m] == p[..m] && (p + [e])[..m + 1] == p[..m + 1];
  }

  /** The call a step ends, if it ends one, is located. */
  lemma EndedCallLocated(s0: Sys, p: seq<Event>, m: Sys, e: Event, k: nat)
    requires Run(s0, p) == Some(m) && m.thread.Waiting? && Enabled(m, e)
    requires Open(s0, p, k, |m.outcomes|, m.thread.call)
    requires |Step(m, e).outcomes| > |m.outcomes|
    ensures Located(s0, p + [e], |m.outcomes|, Last(Step(m, e).outcomes))
  {
    var es := p + [e];
    assert es[..|p|] == p && es[..|p| + 1] == es;
    RunSnoc(s0, p, e);
    assert Own(s0, es, k, |p|, |m.outcomes|, Last(Step(m, e).outcomes));
  }

  /** The call in progress after a step is located. */
  lemma OpenCallLocated(s0: Sys, p: seq<Event>, m: Sys, e: Event)
    requires Run(s0, p) == Some(m) && Enabled(m, e) && Step(m, e).thread.Waiting?
    requires m.thread.Waiting? ==> exists k: nat :: Open(s0, p, k, |m.outcomes|, m.thread.call)
    ensures exists k: nat :: Open(s0, p + [e], k, |Step(m, e).outcomes|, Step(m, e).thread.call)
  {
    var s := Step(m, e);
    if m.thread.Waiting? {
      var k: nat :| Open(s0, p, k, |m.outcomes|, m.thread.call);
      OpenExtends(s0, p, e, k, |m.outcomes|, m.thread.call);
      assert Open(s0, p + [e], k, |s.outcomes|, s.thread.call);
    } else {
      assert (p + [e])[..|p|] == p && (p + [e])[|p| + 1..] == [];
      assert Open(s0, p + [e], |p|, |s.outcomes|, s.thread.call);
    }
  }

  lemma StepLocates(s0: Sys, p: seq<Event>, m: Sys, e: Event)
    requires Run(s0, p) == Some(m) && AllLocated(s0, p, m) && Enabled(m, e)
    ensures AllLocated(s0, p + [e], Step(m, e))
  {
    var s := Step(m, e);
    StepAppendsOutcome(m, e);
    forall i | 0 <= i < |s.outcomes| ensures Located(s0, p + [e], i, s.outcomes[i]) {
      if i < |m.outcomes| {
        assert s.outcomes[i] == m.outcomes[i];
        if !m.outcomes[i].Refused? {
          var k: nat, n: nat :| Own(s0, p, k, n, i, m.outcomes[i]);
          OwnExtends(s0, p, e, k, n, i, m.outcomes[i]);
        }
      } else if m.thread.Waiting? {
        var k: nat :| Open(s0, p, k, |m.outcomes|, m.thread.call);
        EndedCallLocated(s0, p, m, e, k);
      }
    }
    if s.thread.Waiting? { OpenCallLocated(s0, p, m, e); }
  }

  /** Installing happens in the same critical section as writing, so the window of each call is
      everything processed from the event that wrote its own command to the event that ended
      it. */
  lemma {:induction false} RunsAreLocated(s0: Sys, es: seq<Event>, s: Sys)
    requires Run(s0, es) == Some(s) && Inv(s0) && s0.thread.Idle? && s0.outcomes == []
    ensures Inv(s) && AllLocated(s0, es, s)
  {
    if es != [] {
      var p, e := es[..|es| - 1], Last(es);
      var m := Run(s0, p).value;
      assert es == p + [e];
      RunsAreLocated(s0, p, m);
      StepKeepsInv(m, e);
      StepLocates(s0, p, m, e);
    }
  }

  /** The calls that have ended and whose command was written. */
  function EndedCalls(os: seq<Outcome>): seq<Call>
  {
    if os == [] then []
    else EndedCalls(os[..|os| - 1]) + if Last(os).Refused? then [] else [Last(os).call]
  }

  lemma EndedCallsSnoc(os: seq<Outcome>, o: Outcome)
    ensures EndedCalls(os + [o]) == EndedCalls(os) + if o.Refused? then [] else [o.call]
  {
    SnocSlice(os, o);
  }

  /** The commands of calls. */
  function Requests(cs: seq<Call>): (rs: seq<Request>)
    ensures |rs| == |cs|
  {
    if cs == [] then [] else Requests(cs[..|cs| - 1]) + [Last(cs).req]
  }

  lemma RequestsSnoc(cs: seq<Call>, c: Call)
    ensures Requests(cs + [c]) == Requests(cs) + [c.req]
  {
    SnocSlice(cs, c);
  }

  /** Every command written has ended as one outcome, in order, or is the open call's. */
  ghost predicate CommandsMatch(s: Sys, es: seq<Event>)
  {
    Commands(es) == Requests(EndedCalls(s.outcomes)) + if s.thread.Waiting? then [s.thread.call.req] else []
  }

  lemma {:induction false} CommandsMatchOutcomes(s0: Sys, es: seq<Event>, s: Sys)
    requires Run(s0, es) == Some(s) && Inv(s0) && s0.thread.Idle? && s0.outcomes == []
    ensures CommandsMatch(s, es)
  {
    if es != [] {
      var p, e := es[..|es| - 1], Last(es);
      var m := Run(s0, p).value;
      assert es == p + [e];
      CommandsMatchOutcomes(s0, p, m);
      RunsAreLocated(s0, p, m);
      CommandsMatchStep(m, p, e);
    }
  }

  lemma CommandsMatchStep(m: Sys, p: seq<Event>, e: Event)
    requires CommandsMatch(m, p) && Inv(m) && Enabled(m, e)
    ensures CommandsMatch(Step(m, e), p + [e])
  {
    CountsSnoc(p, e);
    var s, qs := Step(m, e), Requests(EndedCalls(m.outcomes));
    assert qs + [] == qs && Commands(p) + [] == Commands(p);
    if s.outcomes != m.outcomes { EndedRequests(m, e); }
  }

  /** The outcome a step of the issuer leaves: that of its call, or a refusal. */
  lemma EndedOutcome(m: Sys, e: Event) returns (o: Outcome)
    requires Enabled(m, e) && Step(m, e).outcomes != m.outcomes
    ensures Step(m, e).outcomes == m.outcomes + [o] && Step(m, e).thread.Idle?
    ensures if m.thread.Idle? then o.Refused? else !o.Refused? && o.call == m.thread.call
  {
    o := Last(Step(m, e).outcomes);
    SnocSlice(m.outcomes, o);
  }

  /** The call that ends adds its command, a refused one adds none. */
  lemma EndedRequests(m: Sys, e: Event)
    requires Enabled(m, e) && Step(m, e).outcomes != m.outcomes
    ensures !Step(m, e).thread.Waiting?
    ensures Requests(EndedCalls(Step(m, e).outcomes)) ==
            Requests(EndedCalls(m.outcomes)) + if m.thread.Waiting? then [m.thread.call.req] else []
  {
    var o := EndedOutcome(m, e);
    EndedCallsSnoc(m.outcomes, o);
    var cs := EndedCalls(m.outcomes);
    if o.Refused? {
      assert cs + [] == cs && Requests(cs) + [] == Requests(cs);
    } else {
      RequestsSnoc(cs, o.call);
    }
  }

  /** The outcomes at an earlier moment are the first ones. */
  lemma {:induction false} OutcomesGrow(s0: Sys, es: seq<Event>, k: nat)
    requires k <= |es| && Run(s0, es).Some?
    ensures Run(s0, es[..k]).Some? && Run(s0, es[..k]).value.outcomes <= Run(s0, es).value.outcomes
  {
    if k < |es| {
      var p := es[..|es| - 1];
      assert p[..k] == es[..k];
      OutcomesGrow(s0, p, k);
      StepAppendsOutcome(Run(s0, p).value, Last(es));
    } else {
      assert es[..k] == es;
    }
  }

  /** The command of outcome i comes after those of the calls that ended before it. */
  lemma OwnComesAfter(raw: Option<string>, proxy: bool, es: seq<Event>, s: Sys, i: nat, k: nat, m: nat, o: Outcome)
    requires Run(Start(raw, proxy), es) == Some(s) && i < |s.outcomes|
    requires !o.Refused? && Own(Start(raw, proxy), es, k, m, i, o)
    ensures |Commands(es[..k])| == |EndedCalls(s.outcomes[..i])|
  {
    var s0 := Start(raw, proxy);
    assert es[..m][..k] == es[..k];
    OutcomesGrow(s0, es, k);
    CommandsMatchOutcomes(s0, es[..k], Run(s0, es[..k]).value);
    assert Run(s0, es[..k]).value.outcomes == s.outcomes[..i];
  }

  /** On every interleaving of the issuer and the reader, the i-th outcome, if it is a return,
      carries exactly the reference response of the lines processed between the install of its
      own command, the next one after those of the calls before it, and its own collection. */
  lemma DeliveredIsExact(raw: Option<string>, proxy: bool, es: seq<Event>, s: Sys, i: nat)
    requires Run(Start(raw, proxy), es) == Some(s)
    requires i < |s.outcomes| && s.outcomes[i].Delivered?
    ensures var o := s.outcomes[i];
            o.response == ExpectedResponse(o.call) && o.response.final.Some? &&
            exists k: nat, m: nat ::
              (Own(Start(raw, proxy), es, k, m, i, o) && |Commands(es[..k])| == |EndedCalls(s.outcomes[..i])|)
  {
    var s0 := Start(raw, proxy);
    RunsAreLocated(s0, es, s);
    var o := s.outcomes[i];
    assert Located(s0, es, i, o) && Sound(o);
    var k: nat, m: nat :| Own(s0, es, k, m, i, o);
    OwnComesAfter(raw, proxy, es, s, i, k, m, o);
  }

  // ----- final lines -----

  lemma {:induction false} FinalsAreFinal(ls: seq<string>)
    ensures forall i :: 0 <= i < |Finals(ls)| ==> IsFinal(Finals(ls)[i]) && Finals(ls)[i] in ls
  {
    if ls != [] {
      FinalsAreFinal(ls[..|ls| - 1]);
    }
  }

  /** In every reachable state the success flag agrees with the stored final line, however
      many finals arrived before the issuer woke. */
  lemma FinalFlagAgrees(raw: Option<string>, proxy: bool, es: seq<Event>, s: Sys)
    requires Run(Start(raw, proxy), es) == Some(s) && s.chan.pending.Some?
    ensures var r := s.chan.pending.value.response;
            match r.final
            case None => !r.success
            case Some(f) =>
              (r.success <==> "OK" <= f || "+QIND: \"FOTA\",\"END\",0" <= f || "CONNECT" <= f) &&
              (!r.success <==>
                "ERROR" <= f || "+CMS ERROR:" <= f || "+CME ERROR:" <= f || "NO CARRIER" <= f ||
                "NO ANSWER" <= f || "NO DIALTONE" <= f || "COMMAND NOT SUPPORT" <= f)
  {
    RunsAreLocated(Start(raw, proxy), es, s);
    var ls := Untriggered(s.thread.call);
    FinalsAreFinal(ls);
    if Finals(ls) != [] { FinalSpelled(Last(Finals(ls))); }
  }

  // ----- the typed wrappers -----

  /** `at_send_command_singleline`, `_numeric`, `_asciicode` and `_sms` reject a successful
      response without an intermediate line. */
  function Checked(err: int, response: Option<Response>): (int, Option<Response>)
  {
    if err == 0 && response.Some? && response.value.success && response.value.lines == []
    then (AT_ERROR_INVALID_RESPONSE, None)
    else (err, response)
  }

  lemma {:induction false} CandidatesMatch(kind: Kind, ls: seq<string>)
    ensures forall x :: x in Candidates(kind, ls) ==> x in ls && !IsFinal(x) && Matches(kind, x)
    ensures kind.NoResult? ==> Candidates(kind, ls) == []
  {
    if ls != [] {
      CandidatesMatch(kind, ls[..|ls| - 1]);
    }
  }

  /** Every delivered intermediate line is a processed, non-final line that answers the
      command; only a multi-line command is given more than one, and all that answer it, every
      other one the first; and a checked successful response has one. */
  lemma WrapperGuarantee(raw: Option<string>, proxy: bool, es: seq<Event>, s: Sys, i: nat)
    requires Run(Start(raw, proxy), es) == Some(s)
    requires i < |s.outcomes| && s.outcomes[i].Delivered?
    ensures var o := s.outcomes[i];
            var kind := o.call.req.kind;
            MadeOf(o.call, o.response) &&
            (forall x :: x in o.response.lines ==> x in o.call.window && !IsFinal(x) && Matches(kind, x)) &&
            (!kind.MultiLine? ==> |o.response.lines| <= 1) &&
            (kind.NoResult? ==> o.response.lines == []) &&
            (!kind.MultiLine? && o.response.success && Checked(0, Some(o.response)).0 == 0 ==> |o.response.lines| == 1)
    ensures forall x :: x in s.outcomes[i].response.lines ==>
              match s.outcomes[i].call.req.kind
              case NoResult => false
              case Numeric => x != "" && '0' <= x[0] <= '9'
              case SingleLine(prefix) => prefix <= x
              case MultiLine(prefix) => prefix <= x
              case AsciiCode =>
                !Occurs("OK", x) && !Occurs("AT", x) && !Occurs(":", x) &&
                forall j :: 0 <= j < |x| ==>
                  '0' <= x[j] <= '9' || 'a' <= x[j] <= 'z' || 'A' <= x[j] <= 'Z' || x[j] in "_-.+ "
  {
    DeliveredIsExact(raw, proxy, es, s, i);
    var c := s.outcomes[i].call;
    ResponseGuarantee(c);
    ExpectedIsMadeOf(c);
  }

  lemma ResponseGuarantee(c: Call)
    ensures var lines, kind := ExpectedResponse(c).lines, c.req.kind;
            (forall x :: x in lines ==> x in c.window && !IsFinal(x) && Matches(kind, x) && Answers(kind, x)) &&
            (!kind.MultiLine? ==> |lines| <= 1) && (kind.NoResult? ==> lines == [])
  {
    CandidatesMatch(c.req.kind, Untriggered(c));
    UntriggeredAreProcessed(c);
    forall x | x in ExpectedResponse(c).lines ensures Answers(c.req.kind, x) { AnswersIsMatches(c.req.kind, x); }
  }

  lemma {:induction false} RemoveFirstFrom<T>(s: seq<T>, x: T)
    ensures forall y :: y in RemoveFirst(s, x) ==> y in s
  {
    if s != [] {
      RemoveFirstFrom(s[..|s| - 1], x);
    }
  }

  lemma UntriggeredAreProcessed(c: Call)
    ensures forall x :: x in Untriggered(c) ==> x in c.window
  {
    RemoveFirstFrom(c.window, CONNECT);
    RemoveFirstFrom(Without(c.window, c.before.raw.Some?, CONNECT), PROMPT);
  }

  // ----- routing -----

  function Fired(armed: bool, ls: seq<string>, trigger: string): multiset<string>
  {
    if armed && trigger in ls then multiset{trigger} else multiset{}
  }

  /** One line goes to exactly one of the three filters. */
  lemma FiltersPartitionStep(kind: Kind, proxy: bool, p: seq<string>, x: string)
    ensures var f := IsFinal(x);
            var a := !f && Matches(kind, x) && (kind.MultiLine? || Accepted(kind, p) == []);
            Finals(p + [x]) == Finals(p) + (if f then [x] else []) &&
            Accepted(kind, p + [x]) == Accepted(kind, p) + (if a then [x] else []) &&
            Leftover(kind, proxy, p + [x]) == Leftover(kind, proxy, p) + (if (f && proxy) || !(f || a) then [x] else [])
  {
    FiltersSnoc(kind, proxy, p, x);
  }

  lemma PartitionGrows<T>(m: multiset<T>, f: multiset<T>, a: multiset<T>, l: multiset<T>, x: T,
                          final: bool, taken: bool, proxy: bool)
    requires m + (if proxy then f else multiset{}) == f + a + l
    requires !(final && taken)
    ensures var one, none := multiset{x}, multiset{};
            var f' := f + if final then one else none;
            m + one + (if proxy then f' else none) ==
            f' + (a + if taken then one else none) + (l + if (final && proxy) || !(final || taken) then one else none)
  {
    var pf := if proxy then f else multiset{};
    assert forall y :: m[y] + pf[y] == f[y] + a[y] + l[y] by {
      forall y ensures m[y] + pf[y] == f[y] + a[y] + l[y] {
        assert (m + pf)[y] == (f + a + l)[y];
      }
    }
    if final && proxy {
      assert m + multiset{x} + (f + multiset{x}) == (f + multiset{x}) + a + (l + multiset{x});
    } else if final {
      assert m + multiset{x} == (f + multiset{x}) + a + l;
    }
  }

  /** The three filters share out the lines; proxy mode copies the finals. */
  ghost predicate Partitioned(kind: Kind, proxy: bool, ls: seq<string>)
  {
    multiset(ls) + (if proxy then multiset(Finals(ls)) else multiset{}) ==
    multiset(Finals(ls)) + multiset(Accepted(kind, ls)) + multiset(Leftover(kind, proxy, ls))
  }

  lemma PartitionedEmpty(kind: Kind, proxy: bool)
    ensures Partitioned(kind, proxy, [])
  {
    assert Accepted(kind, []) == [];
  }

  lemma {:induction false} FiltersPartition(kind: Kind, proxy: bool, ls: seq<string>)
    ensures Partitioned(kind, proxy, ls)
  {
    if ls == [] {
      PartitionedEmpty(kind, proxy);
    } else {
      var p, x := ls[..|ls| - 1], Last(ls);
      assert ls == p + [x];
      FiltersPartition(kind, proxy, p);
      PartitionedSnoc(kind, proxy, p, x);
    }
  }

  lemma PartitionedSnoc(kind: Kind, proxy: bool, p: seq<string>, x: string)
    requires Partitioned(kind, proxy, p)
    ensures Partitioned(kind, proxy, p + [x])
  {
    FiltersPartitionStep(kind, proxy, p, x);
    var f := IsFinal(x);
    var a := !f && Matches(kind, x) && (kind.MultiLine? || Accepted(kind, p) == []);
    GrownMultiset(Finals(p), x, f);
    GrownMultiset(Accepted(kind, p), x, a);
    GrownMultiset(Leftover(kind, proxy, p), x, (f && proxy) || !(f || a));
    PartitionGrows(multiset(p), multiset(Finals(p)), multiset(Accepted(kind, p)),
                   multiset(Leftover(kind, proxy, p)), x, f, a, proxy);
  }

  lemma TriggersPartition(c: Call)
    ensures multiset(c.window) == multiset(Untriggered(c)) +
            Fired(c.before.raw.Some?, c.window, CONNECT) + Fired(c.req.pdu.Some?, c.window, PROMPT)
  {
    var w := Without(c.window, c.before.raw.Some?, CONNECT);
    RemoveFirstKeeps(c.window, CONNECT);
    RemoveFirstKeeps(w, PROMPT);
    assert PROMPT != CONNECT;
    RemoveFirstIn(c.window, CONNECT, PROMPT);
  }

  lemma CallPartition(c: Call)
    ensures var ls := Untriggered(c);
            multiset(c.window) + (if c.before.proxy then multiset(Finals(ls)) else multiset{}) ==
            multiset(Finals(ls)) + multiset(ExpectedResponse(c).lines)
            + multiset(Leftover(c.req.kind, c.before.proxy, ls))
            + Fired(c.before.raw.Some?, c.window, CONNECT) + Fired(c.req.pdu.Some?, c.window, PROMPT)
  {
    TriggersPartition(c);
    FiltersPartition(c.req.kind, c.before.proxy, Untriggered(c));
  }

  // ----- pairing of calls and final lines -----

  /** Requests whose command was written in full, in order. */
  function Commands(es: seq<Event>): seq<Request>
  {
    if es == [] then []
    else Commands(es[..|es| - 1]) + if Last(es).Issue? && Last(es).err == 0 then [Last(es).req] else []
  }

  function FinalsIn(es: seq<Event>): seq<string>
  {
    if es == [] then []
    else FinalsIn(es[..|es| - 1]) + if Last(es).Line? && IsFinal(Last(es).line) then [Last(es).line] else []
  }

  /** The modem sends at most one final line per command, and only after receiving it. */
  ghost predicate OneFinalPerCommand(es: seq<Event>)
  {
    forall k :: 0 <= k <= |es| ==> |FinalsIn(es[..k])| <= |Commands(es[..k])|
  }

  function Deliveries(os: seq<Outcome>): seq<Outcome>
  {
    if os == [] then []
    else Deliveries(os[..|os| - 1]) + if Last(os).Delivered? then [Last(os)] else []
  }

  ghost predicate NoTimeout(os: seq<Outcome>)
  {
    forall i :: 0 <= i < |os| ==> !os[i].TimedOut?
  }

  /** The k-th call that returned carries the k-th command and the k-th final line. */
  ghost predicate Paired(ds: seq<Outcome>, rs: seq<Request>, fs: seq<string>)
  {
    |ds| <= |rs| && |ds| <= |fs| &&
    forall k :: 0 <= k < |ds| ==> ds[k].Delivered? && ds[k].call.req == rs[k] && ds[k].response.final == Some(fs[k])
  }

  lemma PairedSnoc(ds: seq<Outcome>, rs: seq<Request>, fs: seq<string>, d: Outcome)
    requires Paired(ds, rs, fs) && |ds| < |rs| && |ds| < |fs|
    requires d.Delivered? && d.call.req == rs[|ds|] && d.response.final == Some(fs[|ds|])
    ensures Paired(ds + [d], rs, fs)
  {
  }

  ghost predicate PairedState(s: Sys, es: seq<Event>)
  {
    Paired(Deliveries(s.outcomes), Commands(es), FinalsIn(es)) && s.chan.raw.None? &&
    var d, c, f := |Deliveries(s.outcomes)|, |Commands(es)|, |FinalsIn(es)|;
    match s.thread
    case Idle => c == d == f && s.chan.pending.None?
    case Waiting(call, _) =>
      c == d + 1 && call.req == Commands(es)[d] && s.chan.pending.Some? &&
      s.chan.pending.value.response.final == (if f == d then None else Some(FinalsIn(es)[d])) && f <= d + 1
  }

  /** With one final line per command and no timeout, replies cannot slip: whatever the
      interleaving, call k gets final line k, and between calls nothing is pending. */
  lemma {:induction false} Pairing(proxy: bool, es: seq<Event>, s: Sys)
    requires Run(Start(None, proxy), es) == Some(s)
    requires OneFinalPerCommand(es) && NoTimeout(s.outcomes)
    ensures PairedState(s, es)
  {
    if es != [] {
      var p, e := es[..|es| - 1], Last(es);
      assert es == p + [e];
      var m := Run(Start(None, proxy), p).value;
      StepAppendsOutcome(m, e);
      assert NoTimeout(m.outcomes) by {
        forall i | 0 <= i < |m.outcomes| ensures !m.outcomes[i].TimedOut? {
          assert m.outcomes[i] == s.outcomes[i];
        }
      }
      assert OneFinalPerCommand(p) by {
        forall k | 0 <= k <= |p| ensures |FinalsIn(p[..k])| <= |Commands(p[..k])| {
          assert p[..k] == es[..k];
        }
      }
      Pairing(proxy, p, m);
      assert es[..|es|] == es;
      PairingStep(m, e, p, s);
    }
  }

  /** A call that is given nothing but expiring slices. */
  lemma IssueThenExpire(s0: Sys, a: Request) returns (n: nat)
    requires s0.thread.Idle? && s0.chan.pending.None?
    ensures n == TimedWait.SliceCount(Msecs(a))
    ensures Run(s0, [Issue(a, 0)] + Slices(n)) ==
            Some(Sys(s0.chan, Idle, s0.outcomes + [TimedOut(Call(a, s0.chan, []))]))
  {
    RunSnoc(s0, [], Issue(a, 0));
    assert [] + [Issue(a, 0)] == [Issue(a, 0)];
    n := SlicesAloneTimeOut(Step(s0, Issue(a, 0)));
    RunConcat(s0, [Issue(a, 0)], Slices(n));
  }

  /** An unanswered call without a time of its own is given up after four slices, which are 15
      seconds, with another time t after as many slices as make up t. */
  lemma UnansweredCall(s0: Sys, a: Request)
    requires s0.thread.Idle? && s0.chan.pending.None?
    ensures var n := if a.timeout == 0 then 4 else TimedWait.SliceCount(a.timeout);
            Run(s0, [Issue(a, 0)] + Slices(n)) ==
            Some(Sys(s0.chan, Idle, s0.outcomes + [TimedOut(Call(a, s0.chan, []))]))
  {
    var n := IssueThenExpire(s0, a);
    if a.timeout == 0 { TimedWait.DefaultWait(a); }
  }

  /** A call answered at once. */
  lemma IssueThenReply(s: Sys, b: Request, f: string)
    requires s.thread.Idle? && s.chan.pending.None? && s.chan.raw.None? && IsFinal(f)
    ensures var m := Run(s, [Issue(b, 0), Line(f), Wake]);
            m.Some? && m.value.thread.Idle? &&
            m.value.outcomes == s.outcomes + [Delivered(Call(b, s.chan, [f]), Response(IsSuccess(f), Some(f), []))]
  {
    var e1, e2 := [Issue(b, 0)], [Issue(b, 0), Line(f)];
    RunSnoc(s, [], Issue(b, 0));
    assert [] + [Issue(b, 0)] == e1;
    RunSnoc(s, e1, Line(f));
    assert e1 + [Line(f)] == e2;
    RunSnoc(s, e2, Wake);
    assert e2 + [Wake] == [Issue(b, 0), Line(f), Wake];
    FinalTablesDisjoint(f);
    var s2 := Step(Step(s, Issue(b, 0)), Line(f));
    assert [] + [f] == [f];
    assert s2.thread == Waiting(Call(b, s.chan, [f]), 0);
    assert s2.chan.pending.value.response == Response(IsSuccess(f), Some(f), []);
  }

  lemma CountsSnoc(es: seq<Event>, e: Event)
    ensures Commands(es + [e]) == Commands(es) + if e.Issue? && e.err == 0 then [e.req] else []
    ensures FinalsIn(es + [e]) == FinalsIn(es) + if e.Line? && IsFinal(e.line) then [e.line] else []
  {
    SnocSlice(es, e);
  }

  /** The hypothesis about timeouts is needed: a call whose slices expire before its reply
      leaves that reply to the next call, though the modem answered each command once. */
  lemma LateReplySlips(proxy: bool, a: Request, b: Request, f: string) returns (es: seq<Event>, s: Sys)
    requires IsFinal(f)
    ensures Run(Start(None, proxy), es) == Some(s) && OneFinalPerCommand(es)
    ensures Commands(es) == [a, b] && FinalsIn(es) == [f]
    ensures |s.outcomes| == 2 && s.outcomes[0].TimedOut? && s.outcomes[0].call.req == a
    ensures s.outcomes[1].Delivered? && s.outcomes[1].call.req == b && s.outcomes[1].response.final == Some(f)
  {
    var s0 := Start(None, proxy);
    var n := IssueThenExpire(s0, a);
    var lost := [Issue(a, 0)] + Slices(n);
    IssueThenReply(Run(s0, lost).value, b, f);
    es := lost + [Issue(b, 0), Line(f), Wake];
    RunConcat(s0, lost, [Issue(b, 0), Line(f), Wake]);
    s := Run(s0, es).value;
    CountsSnoc([], Issue(a, 0));
    assert [] + [Issue(a, 0)] == [Issue(a, 0)];
    SlicesAreSilent([Issue(a, 0)], n);
    LateReplyCounts(lost, a, b, f);
  }

  lemma LateReplyCounts(lost: seq<Event>, a: Request, b: Request, f: string)
    requires Commands(lost) == [a] && FinalsIn(lost) == [] && IsFinal(f)
    ensures var es := lost + [Issue(b, 0), Line(f), Wake];
            Commands(es) == [a, b] && FinalsIn(es) == [f] && OneFinalPerCommand(es)
  {
    var e1 := lost + [Issue(b, 0)];
    var e2 := e1 + [Line(f)];
    var es := lost + [Issue(b, 0), Line(f), Wake];
    assert es == e2 + [Wake];
    CountsSnoc(lost, Issue(b, 0));
    CountsSnoc(e1, Line(f));
    CountsSnoc(e2, Wake);
    forall k | 0 <= k <= |es| ensures |FinalsIn(es[..k])| <= |Commands(es[..k])| {
      if k <= |e1| {
        NoFinalsBefore(e1, k);
        assert es[..k] == e1[..k];
      } else {
        assert es[..k] == e2 || es[..k] == es;
      }
    }
  }

  lemma {:induction false} SlicesAreSilent(pre: seq<Event>, n: nat)
    ensures Commands(pre + Slices(n)) == Commands(pre) && FinalsIn(pre + Slices(n)) == FinalsIn(pre)
    decreases n
  {
    if n == 0 {
      assert pre + [] == pre;
    } else {
      CountsSnoc(pre, SliceTimeout);
      SlicesAreSilent(pre + [SliceTimeout], n - 1);
      assert pre + Slices(n) == (pre + [SliceTimeout]) + Slices(n - 1);
    }
  }

  lemma {:induction false} NoFinalsBefore(es: seq<Event>, k: nat)
    requires k <= |es| && FinalsIn(es) == []
    ensures FinalsIn(es[..k]) == []
  {
    if k < |es| {
      assert es[..|es| - 1][..k] == es[..k];
      NoFinalsBefore(es[..|es| - 1], k);
    } else {
      assert es[..k] == es;
    }
  }

  lemma StepAppendsOutcome(s: Sys, e: Event)
    requires Enabled(s, e)
    ensures s.outcomes <= Step(s, e).outcomes
    ensures var os := Step(s, e).outcomes;
            os == s.outcomes || (os == s.outcomes + [Last(os)] && os[..|os| - 1] == s.outcomes)
  {
  }

  /** A slice that ends the call would leave its timeout behind. */
  lemma SliceLeavesWaiting(m: Sys)
    requires Enabled(m, SliceTimeout) && NoTimeout(Step(m, SliceTimeout).outcomes)
    ensures Step(m, SliceTimeout).thread.Waiting? && Step(m, SliceTimeout).outcomes == m.outcomes
  {
    TimeoutShows(m.outcomes, m.thread.call);
  }

  lemma TimeoutShows(os: seq<Outcome>, c: Call)
    ensures !NoTimeout(os + [TimedOut(c)])
  {
    assert (os + [TimedOut(c)])[|os|].TimedOut?;
  }

  lemma PairingStep(m: Sys, e: Event, p: seq<Event>, s: Sys)
    requires PairedState(m, p) && Enabled(m, e) && s == Step(m, e) && NoTimeout(s.outcomes)
    requires |FinalsIn(p + [e])| <= |Commands(p + [e])|
    ensures PairedState(s, p + [e])
  {
    SnocSlice(p, e);
    var ds := Deliveries(m.outcomes);
    match e
    case Issue(req, err) =>
      if s.outcomes != m.outcomes { SnocSlice(m.outcomes, Last(s.outcomes)); }
    case Line(line) =>
      FinalTablesDisjoint(line);
    case Wake =>
      if s.thread.Idle? {
        SnocSlice(m.outcomes, Last(s.outcomes));
        PairedSnoc(ds, Commands(p), FinalsIn(p), Last(s.outcomes));
      }
    case SliceTimeout =>
      SliceLeavesWaiting(m);
  }

  // ----- what a timed wait can lose -----

  function Slices(n: nat): seq<Event>
  {
    if n == 0 then [] else [SliceTimeout] + Slices(n - 1)
  }

  /** The wait loop over slices never looks at the response: from any moment of a call,
      whether or not its final line has arrived, expiring slices alone end it as timed out. */
  lemma {:induction false} SlicesAloneTimeOut(s: Sys) returns (n: nat)
    requires s.thread.Waiting? && s.thread.elapsed < Msecs(s.thread.call.req)
    ensures n == TimedWait.SlicesFrom(Msecs(s.thread.call.req), s.thread.elapsed) > 0
    ensures Run(s, Slices(n)) ==
            Some(Sys(s.chan.(pending := None), Idle, s.outcomes + [TimedOut(s.thread.call)]))
    decreases Msecs(s.thread.call.req) - s.thread.elapsed
  {
    var t := OneSlice(s);
    var left := TimedWait.SlicesFrom(Msecs(s.thread.call.req), s.thread.elapsed);
    if t.thread.Waiting? {
      var k := SlicesAloneTimeOut(t);
      RunConcat(s, [SliceTimeout], Slices(k));
      n := k + 1;
    } else {
      n := 1;
      assert Slices(1) == [SliceTimeout];
    }
  }

  /** A slice that expires is the last one, or the call waits on. */
  lemma OneSlice(s: Sys) returns (t: Sys)
    requires s.thread.Waiting?
    ensures Run(s, [SliceTimeout]) == Some(t)
    ensures var c, now := s.thread.call, s.thread.elapsed + Slice(Msecs(s.thread.call.req));
            t == if now < Msecs(c.req) then Sys(s.chan, Waiting(c, now), s.outcomes)
                 else Sys(s.chan.(pending := None), Idle, s.outcomes + [TimedOut(c)])
  {
    t := Step(s, SliceTimeout);
    RunSnoc(s, [], SliceTimeout);
    assert [] + [SliceTimeout] == [SliceTimeout];
  }
}
