/** The command protocol as a state machine with one atomic step per critical section of the
    command mutex: a command is written and installed, a line is processed, the waiting
    issuer is woken, or one slice of its timed wait expires. */
module Protocol {
  import opened CText
  import opened Classify

  const AT_ERROR_GENERIC := -1
  const AT_ERROR_COMMAND_PENDING := -2
  const AT_ERROR_CHANNEL_CLOSED := -3
  const AT_ERROR_TIMEOUT := -4
  const AT_ERROR_INVALID_RESPONSE := -6

  const DEFAULT_TIMEOUT_MSEC := 15000

  // ----- state -----

  /** What `sp_response` holds; `lines` in order of arrival. */
  datatype Response = Response(success: bool, final: Option<string>, lines: seq<string>)

  datatype Pending = Pending(kind: Kind, pdu: Option<string>, response: Response)

  /** The static variables of the channel and what has been handed to the outside: the lines
      given to the unsolicited handler, the PDUs and the raw blobs given to the writer. */
  datatype Chan = Chan(pending: Option<Pending>, raw: Option<string>, proxy: bool,
                       unsol: seq<string>, pdus: seq<string>, raws: seq<string>)

  datatype Request = Request(command: Option<string>, kind: Kind, pdu: Option<string>, timeout: nat)

  /** A call in progress: the channel before it was installed and every line processed since. */
  datatype Call = Call(req: Request, before: Chan, window: seq<string>)

  datatype Outcome =
    | Delivered(call: Call, response: Response)
    | TimedOut(call: Call)
    | Refused(req: Request, err: int)

  datatype Thread = Idle | Waiting(call: Call, elapsed: nat)

  datatype Sys = Sys(chan: Chan, thread: Thread, outcomes: seq<Outcome>)

  datatype Event =
    | Issue(req: Request, err: int)  // err: result of writing the command
    | Line(line: string)
    | Wake
    | SliceTimeout

  // ----- steps -----

  /** A line that is neither a trigger nor final, while a command is pending. */
  function TakeLine(c: Chan, line: string): Chan
    requires c.pending.Some?
  {
    var p := c.pending.value;
    if Matches(p.kind, line) && (p.kind.MultiLine? || p.response.lines == []) then
      c.(pending := Some(p.(response := p.response.(lines := p.response.lines + [line]))))
    else
      c.(unsol := c.unsol + [line])
  }

  function Finish(c: Chan, line: string, success: bool): Chan
    requires c.pending.Some?
  {
    var p := c.pending.value;
    c.(pending := Some(p.(response := p.response.(success := success, final := Some(line)))),
       unsol := c.unsol + if c.proxy then [line] else [])
  }

  function ProcessLine(c: Chan, line: string): Chan
  {
    if c.pending.None? then c.(unsol := c.unsol + [line])
    else if c.raw.Some? && line == CONNECT then
      c.(raw := None, raws := c.raws + [c.raw.value])
    else if IsSuccess(line) then Finish(c, line, true)
    else if IsError(line) then Finish(c, line, false)
    else if c.pending.value.pdu.Some? && line == PROMPT then
      c.(pending := Some(c.pending.value.(pdu := None)), pdus := c.pdus + [c.pending.value.pdu.value])
    else TakeLine(c, line)
  }

  function Install(c: Chan, req: Request): Chan
  {
    c.(pending := Some(Pending(req.kind, req.pdu, Response(false, None, []))))
  }

  function Msecs(req: Request): nat
  {
    if req.timeout == 0 then DEFAULT_TIMEOUT_MSEC else req.timeout
  }

  /** Length of one slice of the timed wait; the slices are summed up without wrapping around,
      which TimedWait.NoWrap makes true of the unsigned counter. */
  function Slice(msecs: nat): (t: nat)
    ensures t > 0
  {
    if msecs / 4 == 0 then 1 else msecs / 4
  }

  ghost predicate Enabled(s: Sys, e: Event)
  {
    match e
    case Issue(req, err) => s.thread.Idle? && err <= 0 && (req.command.None? ==> err == 0)
    case Line(_) => true
    case Wake => s.thread.Waiting?
    case SliceTimeout => s.thread.Waiting?
  }

  function Step(s: Sys, e: Event): Sys
    requires Enabled(s, e)
  {
    match e
    case Issue(req, err) =>
      var err' := if s.chan.pending.Some? then AT_ERROR_COMMAND_PENDING else err;
      if err' < 0 then
        Sys(s.chan.(pending := None), Idle, s.outcomes + [Refused(req, err')])
      else
        Sys(Install(s.chan, req), Waiting(Call(req, s.chan, []), 0), s.outcomes)
    case Line(line) =>
      var t := if s.thread.Idle? then Idle
               else s.thread.(call := s.thread.call.(window := s.thread.call.window + [line]));
      Sys(ProcessLine(s.chan, line), t, s.outcomes)
    case Wake =>
      if s.chan.pending.Some? && s.chan.pending.value.response.final.Some? then
        Sys(s.chan.(pending := None), Idle,
            s.outcomes + [Delivered(s.thread.call, s.chan.pending.value.response)])
      else
        s.(thread := s.thread.(elapsed := 0))
    case SliceTimeout =>
      var msecs := Msecs(s.thread.call.req);
      var elapsed := s.thread.elapsed + Slice(msecs);
      if elapsed < msecs then s.(thread := s.thread.(elapsed := elapsed))
      else Sys(s.chan.(pending := None), Idle, s.outcomes + [TimedOut(s.thread.call)])
  }

  /** The state after a run, or None if some event of it could not happen. */
  ghost function Run(s: Sys, es: seq<Event>): Option<Sys>
  {
    if es == [] then Some(s)
    else
      var m := Run(s, es[..|es| - 1]);
      if m.Some? && Enabled(m.value, Last(es)) then Some(Step(m.value, Last(es))) else None
  }

  lemma RunSnoc(s: Sys, es: seq<Event>, e: Event)
    ensures Run(s, es + [e]) ==
            var m := Run(s, es); if m.Some? && Enabled(m.value, e) then Some(Step(m.value, e)) else None
  {
    assert (es + [e])[..|es|] == es;
  }

  lemma {:induction false} RunConcat(s: Sys, a: seq<Event>, b: seq<Event>)
    ensures Run(s, a + b) == var m := Run(s, a); if m.Some? then Run(m.value, b) else None
  {
    if b == [] {
      assert a + b == a;
    } else {
      var b' := b[..|b| - 1];
      assert a + b == (a + b') + [Last(b)];
      RunConcat(s, a, b');
      RunSnoc(s, a + b', Last(b));
    }
  }

  function Start(raw: Option<string>, proxy: bool): Sys
  {
    Sys(Chan(None, raw, proxy, [], [], []), Idle, [])
  }

  // ----- reference description of a call, by filtering the lines of its window -----

  function Finals(ls: seq<string>): seq<string>
  {
    if ls == [] then [] else Finals(ls[..|ls| - 1]) + if IsFinal(Last(ls)) then [Last(ls)] else []
  }

  /** The non-final lines that pass the command's test. */
  function Candidates(kind: Kind, ls: seq<string>): seq<string>
  {
    if ls == [] then []
    else Candidates(kind, ls[..|ls| - 1]) +
         if !IsFinal(Last(ls)) && Matches(kind, Last(ls)) then [Last(ls)] else []
  }

  /** All candidates of a multi-line command, the first one of any other. */
  function Accepted(kind: Kind, ls: seq<string>): seq<string>
  {
    var cs := Candidates(kind, ls);
    if kind.MultiLine? || cs == [] then cs else [cs[0]]
  }

  /** The lines nobody was waiting for, and copies of the final ones in proxy mode. */
  function Leftover(kind: Kind, proxy: bool, ls: seq<string>): seq<string>
  {
    if ls == [] then []
    else
      var init, x := ls[..|ls| - 1], Last(ls);
      var spare := if IsFinal(x) then proxy
                   else !Matches(kind, x) || (!kind.MultiLine? && Candidates(kind, init) != []);
      Leftover(kind, proxy, init) + if spare then [x] else []
  }

  function Without(ls: seq<string>, present: bool, trigger: string): seq<string>
  {
    if present then RemoveFirst(ls, trigger) else ls
  }

  /** The window without the one line that triggered the raw data and the one that triggered
      the PDU. */
  function Untriggered(c: Call): seq<string>
  {
    Without(Without(c.window, c.before.raw.Some?, CONNECT), c.req.pdu.Some?, PROMPT)
  }

  function ExpectedResponse(c: Call): Response
  {
    var ls := Untriggered(c);
    var fs := Finals(ls);
    Response(fs != [] && IsSuccess(Last(fs)),
             if fs == [] then None else Some(Last(fs)),
             Accepted(c.req.kind, ls))
  }

  function Spent(o: Option<string>, ls: seq<string>, trigger: string): seq<string>
  {
    if o.Some? && trigger in ls then [o.value] else []
  }

  function Kept(o: Option<string>, ls: seq<string>, trigger: string): Option<string>
  {
    if trigger in ls then None else o
  }

  /** The whole channel, as it must be after the lines of the call's window. */
  function Expected(c: Call): Chan
  {
    Chan(Some(Pending(c.req.kind, Kept(c.req.pdu, c.window, PROMPT), ExpectedResponse(c))),
         Kept(c.before.raw, c.window, CONNECT),
         c.before.proxy,
         c.before.unsol + Leftover(c.req.kind, c.before.proxy, Untriggered(c)),
         c.before.pdus + Spent(c.req.pdu, c.window, PROMPT),
         c.before.raws + Spent(c.before.raw, c.window, CONNECT))
  }

  // ----- the channel is, at every moment of a call, as the reference says -----

  lemma SnocSlice<T>(s: seq<T>, x: T)
    ensures (s + [x])[..|s|] == s && Last(s + [x]) == x
  {
  }

  lemma WithoutSnoc(ls: seq<string>, present: bool, trigger: string, x: string)
    ensures Without(ls + [x], present, trigger) ==
            if present && x == trigger && trigger !in ls then ls else Without(ls, present, trigger) + [x]
    ensures present && trigger !in ls ==> Without(ls, present, trigger) == ls
  {
    RemoveFirstSnoc(ls, trigger, x);
    var i := RemoveFirstCuts(ls, trigger);
  }

  lemma UntriggeredSnoc(c: Call, x: string)
    ensures var c' := c.(window := c.window + [x]);
            Untriggered(c') ==
            if (c.before.raw.Some? && x == CONNECT && CONNECT !in c.window)
               || (c.req.pdu.Some? && x == PROMPT && PROMPT !in c.window)
            then Untriggered(c) else Untriggered(c) + [x]
  {
    var w := Without(c.window, c.before.raw.Some?, CONNECT);
    WithoutSnoc(c.window, c.before.raw.Some?, CONNECT, x);
    WithoutSnoc(w, c.req.pdu.Some?, PROMPT, x);
    assert PROMPT != CONNECT;
    RemoveFirstIn(c.window, CONNECT, PROMPT);
  }

  /** How the three filters grow by one line. */
  lemma FiltersSnoc(kind: Kind, proxy: bool, ls: seq<string>, x: string)
    ensures Finals(ls + [x]) == Finals(ls) + if IsFinal(x) then [x] else []
    ensures Candidates(kind, ls + [x]) ==
            Candidates(kind, ls) + if !IsFinal(x) && Matches(kind, x) then [x] else []
    ensures Leftover(kind, proxy, ls + [x]) ==
            Leftover(kind, proxy, ls) +
            if (if IsFinal(x) then proxy
                else !Matches(kind, x) || (!kind.MultiLine? && Accepted(kind, ls) != []))
            then [x] else []
  {
    SnocSlice(ls, x);
  }

  /** A line that triggers nothing is filed by the step as the filters file it. */
  lemma OrdinaryStep(c: Call, x: string)
    requires Untriggered(c.(window := c.window + [x])) == Untriggered(c) + [x]
    ensures var r, r' := ExpectedResponse(c), ExpectedResponse(c.(window := c.window + [x]));
            var kind := c.req.kind;
            if IsFinal(x) then r' == r.(success := IsSuccess(x), final := Some(x))
            else if Matches(kind, x) && (kind.MultiLine? || r.lines == []) then r' == r.(lines := r.lines + [x])
            else r' == r
  {
    FiltersSnoc(c.req.kind, c.before.proxy, Untriggered(c), x);
  }

  lemma TriggerStep(c: Call, x: string)
    requires Untriggered(c.(window := c.window + [x])) == Untriggered(c)
    ensures ExpectedResponse(c.(window := c.window + [x])) == ExpectedResponse(c)
  {
  }

  /** The lines of the window still to trigger something. */
  lemma TriggersSnoc(o: Option<string>, ls: seq<string>, x: string, trigger: string)
    ensures Kept(o, ls + [x], trigger) == if x == trigger then None else Kept(o, ls, trigger)
    ensures Spent(o, ls + [x], trigger) ==
            Spent(o, ls, trigger) + if x == trigger && Kept(o, ls, trigger).Some? then [o.value] else []
  {
    assert trigger in ls + [x] <==> trigger in ls || x == trigger;
  }

  lemma Grows<T>(a: seq<T>, b: seq<T>, x: T)
    ensures a + (b + [x]) == (a + b) + [x]
    ensures a + (b + []) == a + b
  {
    assert b + [] == b;
  }

  /** A line that triggers nothing leaves the triggers as they are... */
  lemma OrdinaryKeepsTriggers(c: Call, x: string)
    requires var e := Expected(c);
             !(e.raw.Some? && x == CONNECT) && !(e.pending.value.pdu.Some? && x == PROMPT)
    ensures var c' := c.(window := c.window + [x]);
            var e, e' := Expected(c), Expected(c');
            Untriggered(c') == Untriggered(c) + [x] && e'.raw == e.raw && e'.raws == e.raws && e'.pdus == e.pdus &&
            e'.pending.value.pdu == e.pending.value.pdu
  {
    UntriggeredSnoc(c, x);
    TriggersSnoc(c.req.pdu, c.window, x, PROMPT);
    TriggersSnoc(c.before.raw, c.window, x, CONNECT);
  }

  /** ...and goes to the handler or not as the filters say. */
  lemma OrdinaryUnsol(c: Call, x: string)
    requires Untriggered(c.(window := c.window + [x])) == Untriggered(c) + [x]
    ensures var e, e' := Expected(c), Expected(c.(window := c.window + [x]));
            var kind := c.req.kind;
            e'.unsol == e.unsol +
            if (if IsFinal(x) then c.before.proxy
                else !Matches(kind, x) || (!kind.MultiLine? && e.pending.value.response.lines != []))
            then [x] else []
  {
    FiltersSnoc(c.req.kind, c.before.proxy, Untriggered(c), x);
    Grows(c.before.unsol, Leftover(c.req.kind, c.before.proxy, Untriggered(c)), x);
  }

  /** The branches of ProcessLine for a line that triggers nothing. */
  lemma OrdinaryProcess(e: Chan, x: string)
    requires e.pending.Some? && !(e.raw.Some? && x == CONNECT) && !(e.pending.value.pdu.Some? && x == PROMPT)
    ensures ProcessLine(e, x) == if IsFinal(x) then Finish(e, x, IsSuccess(x)) else TakeLine(e, x)
  {
  }

  lemma ExpectedOrdinary(c: Call, x: string)
    requires var e := Expected(c);
             !(e.raw.Some? && x == CONNECT) && !(e.pending.value.pdu.Some? && x == PROMPT)
    ensures ProcessLine(Expected(c), x) == Expected(c.(window := c.window + [x]))
  {
    OrdinaryKeepsTriggers(c, x);
    OrdinaryStep(c, x);
    OrdinaryUnsol(c, x);
    OrdinaryProcess(Expected(c), x);
  }

  /** The branches of ProcessLine for the two triggers. */
  lemma TriggerProcess(e: Chan, x: string)
    requires e.pending.Some?
    requires (e.raw.Some? && x == CONNECT) || (e.pending.value.pdu.Some? && x == PROMPT)
    ensures ProcessLine(e, x) ==
            if x == CONNECT then e.(raw := None, raws := e.raws + [e.raw.value])
            else e.(pending := Some(e.pending.value.(pdu := None)), pdus := e.pdus + [e.pending.value.pdu.value])
  {
    PromptIsNotFinal();
  }

  lemma ExpectedTrigger(c: Call, x: string)
    requires var e := Expected(c);
             (e.raw.Some? && x == CONNECT) || (e.pending.value.pdu.Some? && x == PROMPT)
    ensures ProcessLine(Expected(c), x) == Expected(c.(window := c.window + [x]))
  {
    UntriggeredSnoc(c, x);
    TriggersSnoc(c.req.pdu, c.window, x, PROMPT);
    TriggersSnoc(c.before.raw, c.window, x, CONNECT);
    TriggerStep(c, x);
    TriggerProcess(Expected(c), x);
    assert PROMPT != CONNECT;
    Grows(c.before.pdus, Spent(c.req.pdu, c.window, PROMPT), c.req.pdu.GetOr(""));
    Grows(c.before.raws, Spent(c.before.raw, c.window, CONNECT), c.before.raw.GetOr(""));
  }

  /** One more line: processing it keeps the channel equal to the reference. */
  lemma ExpectedStep(c: Call, x: string)
    ensures ProcessLine(Expected(c), x) == Expected(c.(window := c.window + [x]))
  {
    var e := Expected(c);
    if (e.raw.Some? && x == CONNECT) || (e.pending.value.pdu.Some? && x == PROMPT) {
      ExpectedTrigger(c, x);
    } else {
      ExpectedOrdinary(c, x);
    }
  }

  lemma PromptIsNotFinal()
    ensures !IsFinal(PROMPT)
  {
    forall i | 0 <= i < |SUCCESS_FINALS| ensures !(SUCCESS_FINALS[i] <= PROMPT) {
      assert SUCCESS_FINALS[i][0] != PROMPT[0];
    }
    forall i | 0 <= i < |ERROR_FINALS| ensures !(ERROR_FINALS[i] <= PROMPT) {
      assert ERROR_FINALS[i][0] != PROMPT[0];
    }
  }
}
