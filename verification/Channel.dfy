/** `processLine`, `at_send_command_full_nolock` and the typed wrappers on the static variables
    of the channel, proved against the protocol's state machine. */
module Channel {
  import opened CText
  import opened Classify
  import opened Protocol
  import opened ResponseList
  import opened Delivered
  import ProtocolRuns
  import Wire
  import Slices = TimedWait

  /** What happens in one `pthread_cond_timedwait`: the reader processes these lines while the
      mutex is free, and then the wait is ended by a wake-up or expires. */
  datatype Round = Round(lines: seq<string>, expires: bool)

  class Static {
    const proxy: bool
    const wire: Wire.Line
    var kind: Kind              // s_type and s_responsePrefix
    var pdu: Option<string>     // s_smsPDU
    var raw: Option<string>     // s_raw_data
    var response: ATResponse?   // sp_response
    /** Lines given to the unsolicited handler, PDUs and raw blobs given to the writer. */
    var unsol: seq<string>
    ghost var pdus: seq<string>
    ghost var raws: seq<string>
    /** What the coming waits will meet; after the last one they expire. */
    var rounds: seq<Round>

    ghost predicate Valid()
      reads this`response, this`pdu, response, HeapOf(response)
      reads if response == null then {} else set n | n in response.nodes
    {
      wire.Valid() &&
      (response == null ==> pdu.None?) &&
      (response != null ==> response.Valid() && response.Accounted()) &&
      (pdu.Some? ==> NulFree(pdu.value))
    }

    ghost function Abs(): Chan
      reads this`kind, this`pdu, this`raw, this`response, this`unsol, this`pdus, this`raws, response
    {
      Chan(if response == null then None
           else Some(Pending(kind, pdu, Response(response.success, response.FinalLine(), Reverse(response.Lines())))),
           raw, proxy, unsol, pdus, raws)
    }

    constructor (proxy: bool, raw: Option<string>, wire: Wire.Line, rounds: seq<Round>)
      requires wire.Valid()
      ensures Valid() && Abs() == Start(raw, proxy).chan
      ensures this.wire == wire && this.rounds == rounds && response == null
    {
      this.proxy, this.wire, this.raw, this.rounds := proxy, wire, raw, rounds;
      kind, pdu, response := NoResult, None, null;
      unsol, pdus, raws := [], [], [];
    }

    method HandleUnsolicited(line: string)
      modifies this`unsol
      ensures unsol == old(unsol) + [line]
    {
      unsol := unsol + [line];
    }

    /** The tests of the switch over the type of the pending command. */
    method Takes(line: string) returns (take: bool)
      requires Valid() && response != null
      ensures take <==> Matches(kind, line) && (kind.MultiLine? || response.nodes == [])
    {
      match kind
      case NoResult => take := false;
      case Numeric => take := response.head == null && line != "" && IsDigit(line[0]);
      case SingleLine(prefix) =>
        var starts := StrStartsWith(line, prefix);
        take := response.head == null && starts;
      case MultiLine(prefix) => take := StrStartsWith(line, prefix);
      case AsciiCode =>
        var ascii := ScanAsciiCode(line);
        take := response.head == null && ascii;
    }

    method AddOrHandle(line: string)
      requires Valid() && response != null
      modifies this`unsol, response`head, response`nodes, response.heap
      ensures Valid() && Abs() == TakeLine(old(Abs()), line)
      ensures forall n :: n in response.nodes ==> n in old(response.nodes) || fresh(n)
    {
      var take := Takes(line);
      ghost var lines := response.Lines();
      assert |Reverse(lines)| == |response.nodes|;
      if take {
        response.AddIntermediate(line);
        assert Reverse([line] + lines) == Reverse(lines) + [line] by {
          assert ([line] + lines)[1..] == lines;
        }
      } else {
        HandleUnsolicited(line);
      }
    }

    method HandleFinal(line: string, success: bool)
      requires Valid() && response != null
      modifies this`unsol, response`success, response`final, response`lost, response.heap
      ensures Valid() && Abs() == Finish(old(Abs()), line, success)
      ensures response.FinalLines() == old(response.FinalLines()) + [line]
    {
      if proxy { HandleUnsolicited(line); }
      response.success := success;
      response.SetFinal(line);
    }

    /** The prompt: the PDU is written, whatever comes of it, and forgotten. */
    method SendPdu()
      requires Valid() && response != null && pdu.Some?
      modifies this`pdu, this`pdus, wire`events, wire`sent
      ensures Valid() && pdu == None && pdus == old(pdus) + [old(pdu).value]
      ensures Tried(old(wire.events), wire.events, old(wire.sent), wire.sent, old(pdu).value + [26 as char])
    {
      var _ := wire.WriteCtrlZ(pdu.value);
      pdus := pdus + [pdu.value];
      pdu := None;
    }

    /** The branches of `processLine` while a command is pending. */
    method ProcessPending(line: string)
      requires Valid() && response != null
      modifies this`pdu, this`raw, this`unsol, this`pdus, this`raws, response, response.heap, wire`events, wire`sent
      ensures Valid() && Abs() == Protocol.ProcessLine(old(Abs()), line)
      ensures forall n :: n in response.nodes ==> n in old(response.nodes) || fresh(n)
      ensures response.FinalLines() == old(response.FinalLines()) + if Files(old(Abs()), line) then [line] else []
      ensures if pdus == old(pdus) then wire.sent == old(wire.sent) && wire.events == old(wire.events)
              else pdus != [] &&
                   Tried(old(wire.events), wire.events, old(wire.sent), wire.sent, Last(pdus) + [26 as char])
    {
      if raw.Some? && line == CONNECT {
        FireRaw();
        return;
      }
      var final := ProcessFinal(line);
      if !final {
        ProcessOther(line);
      }
    }

    /** `CONNECT` sets the raw data going. */
    method FireRaw()
      requires Valid() && response != null && raw.Some?
      modifies this`raw, this`raws
      ensures Valid() && Abs() == old(Abs()).(raw := None, raws := old(raws) + [old(raw).value])
    {
      raws := raws + [raw.value];
      raw := None;
    }

    /** The branches for final lines. */
    method ProcessFinal(line: string) returns (final: bool)
      requires Valid() && response != null && !(raw.Some? && line == CONNECT)
      modifies this`unsol, response`success, response`final, response`lost, response.heap
      ensures final <==> IsFinal(line)
      ensures !final ==> unchanged(this, response, response.heap) && Abs() == old(Abs())
      ensures Valid() && (final ==> Abs() == Protocol.ProcessLine(old(Abs()), line))
      ensures response.FinalLines() == old(response.FinalLines()) + if final then [line] else []
    {
      var success := StartsWithAny(line, SUCCESS_FINALS);
      if success {
        HandleFinal(line, true);
        return true;
      }
      final := StartsWithAny(line, ERROR_FINALS);
      if final {
        HandleFinal(line, false);
      }
    }

    /** The last branches of `processLine`. */
    method ProcessOther(line: string)
      requires Valid() && response != null && !IsFinal(line)
      modifies this`pdu, this`unsol, this`pdus, response`head, response`nodes, response.heap, wire`events, wire`sent
      ensures Valid() && Abs() == Protocol.ProcessLine(old(Abs()), line)
      ensures forall n :: n in response.nodes ==> n in old(response.nodes) || fresh(n)
      ensures if pdus == old(pdus) then wire.sent == old(wire.sent) && wire.events == old(wire.events)
              else pdus != [] &&
                   Tried(old(wire.events), wire.events, old(wire.sent), wire.sent, Last(pdus) + [26 as char])
    {
      ConnectIsFinal();
      if pdu.Some? && line == PROMPT {
        SendPdu();
        return;
      }
      AddOrHandle(line);
    }

    /** `processLine`, under the command mutex. */
    method ProcessLine(line: string)
      requires Valid()
      modifies this`pdu, this`raw, this`unsol, this`pdus, this`raws, response, HeapOf(response), wire`events, wire`sent
      ensures Valid() && Abs() == Protocol.ProcessLine(old(Abs()), line)
      ensures response != null ==> forall n :: n in response.nodes ==> n in old(response.nodes) || fresh(n)
      ensures response != null ==>
                response.FinalLines() == old(response.FinalLines()) + if Files(old(Abs()), line) then [line] else []
      ensures if pdus == old(pdus) then wire.sent == old(wire.sent) && wire.events == old(wire.events)
              else pdus != [] &&
                   Tried(old(wire.events), wire.events, old(wire.sent), wire.sent, Last(pdus) + [26 as char])
    {
      if response == null {
        HandleUnsolicited(line);
      } else {
        ProcessPending(line);
      }
    }

    /** `clearPendingCommand`. */
    method ClearPending()
      requires wire.Valid() && (response != null ==> response.Valid() && response.Accounted())
      modifies this`response, this`pdu, HeapOf(response)
      ensures Valid() && response == null && Abs() == old(Abs()).(pending := None)
      ensures old(response) != null ==> old(response).heap.live == old(response).Lost()
    {
      if response != null {
        var _ := response.Free();
      }
      response := null;
      pdu := None;
    }

    /** The call c is in progress: the channel is as the reference says, the strings of the final
        lines are its own, and of its PDU as much was written as the prompt has called for. */
    ghost predicate InCall(c: Call, m: Mark)
      reads this`kind, this`pdu, this`raw, this`response, this`unsol, this`pdus, this`raws, response, wire
    {
      response != null && Abs() == Expected(c) && response.FinalLines() == Finals(Untriggered(c)) &&
      PduTried(c, m.events, wire.events, m.sent, wire.sent)
    }

    /** A line of the reader, while the issuer waits. */
    method MeetLine(line: string, ghost c: Call, ghost m: Mark)
      requires Valid() && InCall(c, m)
      modifies this`pdu, this`raw, this`unsol, this`pdus, this`raws, response, response.heap, wire
      ensures Valid() && InCall(c.(window := c.window + [line]), m) && Abs() == Protocol.ProcessLine(old(Abs()), line)
      ensures forall n :: n in response.nodes ==> n in old(response.nodes) || fresh(n)
    {
      ghost var events, sent := wire.events, wire.sent;
      ProcessLine(line);
      ExpectedStep(c, line);
      FinalsByLine(c, line);
      PduByLine(c, line, m.events, events, wire.events, m.sent, sent, wire.sent);
    }

    /** One `pthread_cond_timedwait`: true if it expired.  `r` is the round it met. */
    method TimedWait(ghost s: Sys, ghost m: Mark) returns (expired: bool, ghost r: Round, ghost s': Sys)
      requires Valid() && s.chan == Abs() && s.thread.Waiting? && InCall(s.thread.call, m)
      modifies this`pdu, this`raw, this`unsol, this`pdus, this`raws, this`rounds, response, response.heap, wire
      ensures Run(s, LineEvents(r.lines)) == Some(s') && SameWait(s, s', s.thread.elapsed)
      ensures Valid() && s'.chan == Abs() && InCall(s'.thread.call, m)
      ensures forall n :: n in response.nodes ==> n in old(response.nodes) || fresh(n)
      ensures expired == r.expires && Meets(old(rounds), rounds, r)
    {
      r, s' := Round([], true), s;
      if rounds == [] {
        return true, r, s';
      }
      r := rounds[0];
      expired := rounds[0].expires;
      var lines := rounds[0].lines;
      rounds := rounds[1..];
      s' := MeetLines(lines, s, m);
    }

    /** The lines of a round. */
    method MeetLines(lines: seq<string>, ghost s: Sys, ghost m: Mark) returns (ghost s': Sys)
      requires Valid() && s.chan == Abs() && s.thread.Waiting? && InCall(s.thread.call, m)
      modifies this`pdu, this`raw, this`unsol, this`pdus, this`raws, response, response.heap, wire
      ensures Run(s, LineEvents(lines)) == Some(s') && SameWait(s, s', s.thread.elapsed)
      ensures Valid() && s'.chan == Abs() && InCall(s'.thread.call, m)
      ensures forall n :: n in response.nodes ==> n in old(response.nodes) || fresh(n)
    {
      s' := s;
      for i := 0 to |lines|
        modifies this`pdu, this`raw, this`unsol, this`pdus, this`raws, response, response.heap, wire
        invariant Run(s, LineEvents(lines[..i])) == Some(s') && SameWait(s, s', s.thread.elapsed)
        invariant Valid() && s'.chan == Abs() && InCall(s'.thread.call, m)
        invariant forall n :: n in response.nodes ==> n in old(response.nodes) || fresh(n)
      {
        MeetLine(lines[i], s'.thread.call, m);
        s' := LineStep(s, s', lines, i);
      }
      assert lines[..|lines|] == lines;
    }

    /** `pthread_cond_timeout_np`: waits of a quarter of the time each, until one is ended by a
        wake-up or all have expired; the counter is unsigned and must not wrap.  `rs` are the
        rounds met; the event that ends the last one is left to the caller. */
    method CondTimeout(msecs: nat, ghost s: Sys, ghost m: Mark)
      returns (expired: bool, ghost rs: seq<Round>, ghost es: seq<Event>, ghost s': Sys)
      requires Valid() && s.chan == Abs() && s.thread.Waiting? && InCall(s.thread.call, m)
      requires s.thread.elapsed == 0 && 0 < msecs == Msecs(s.thread.call.req) && Slices.NoWrap(msecs)
      modifies this`pdu, this`raw, this`unsol, this`pdus, this`raws, this`rounds, response, response.heap, wire
      ensures s'.thread.Waiting? && Run(s, es) == Some(s') && SameWait(s, s', s'.thread.elapsed)
      ensures Valid() && s'.chan == Abs() && InCall(s'.thread.call, m)
      ensures forall n :: n in response.nodes ==> n in old(response.nodes) || fresh(n)
      ensures es + [EndOf(expired)] == RoundEvents(rs) && AllMet(old(rounds), rounds, rs)
      ensures expired ==> s'.thread.elapsed + Slice(msecs) >= msecs
      ensures |rounds| <= |old(rounds)| && (!expired ==> |rounds| < |old(rounds)|)
    {
      var t := Slice(msecs);
      var i := 0;
      expired, rs, es, s' := true, [], [], s;
      Slices.FirstSlice(msecs);
      assert SliceState(s, [], s, [], 0, msecs);
      while i < msecs
        invariant SliceState(s, es, s', rs, i, msecs)
        invariant Valid() && s'.chan == Abs() && InCall(s'.thread.call, m)
        invariant forall n :: n in response.nodes ==> n in old(response.nodes) || fresh(n)
        invariant expired && AllMet(old(rounds), rounds, rs) && |rounds| <= |old(rounds)|
        decreases msecs - i
      {
        ghost var mid, r, s1 := rounds, Round([], true), s';
        expired, r, s1 := TimedWait(s', m);
        AllMetSnoc(old(rounds), mid, rs, rounds, r);
        es, s' := SliceStep(s, es, s', rs, r, s1, i, msecs);
        rs := rs + [r];
        if !expired {
          break;
        }
        i := Slices.Add(i, t);
      }
    }

    /** The loop around the timed wait: until a final response is there or a wait has expired. */
    method WaitForFinal(msecs: nat, ghost s: Sys, ghost m: Mark)
      returns (expired: bool, ghost rs: seq<Round>, ghost s': Sys)
      requires Valid() && s.chan == Abs() && s.thread.Waiting? && InCall(s.thread.call, m) && response.final == null
      requires s.thread.elapsed == 0 && 0 < msecs == Msecs(s.thread.call.req) && Slices.NoWrap(msecs)
      modifies this`pdu, this`raw, this`unsol, this`pdus, this`raws, this`rounds, response, response.heap, wire
      ensures s'.thread.Waiting? && SameWait(s, s', s'.thread.elapsed)
      ensures Run(s, RoundEvents(rs)) == Some(Step(s', EndOf(expired))) && AllMet(old(rounds), rounds, rs)
      ensures Valid() && s'.chan == Abs() && InCall(s'.thread.call, m)
      ensures forall n :: n in response.nodes ==> n in old(response.nodes) || fresh(n)
      ensures if expired then s'.thread.elapsed + Slice(msecs) >= msecs else response.final != null
    {
      ghost var es;
      expired, rs, es, s' := false, [], [], s;
      while response.final == null
        invariant s'.thread.Waiting? && Run(s, es) == Some(s') && SameWait(s, s', s'.thread.elapsed)
        invariant Valid() && s'.chan == Abs() && InCall(s'.thread.call, m)
        invariant forall n :: n in response.nodes ==> n in old(response.nodes) || fresh(n)
        invariant AllMet(old(rounds), rounds, rs)
        invariant !expired && if response.final == null then s'.thread.elapsed == 0 && es == RoundEvents(rs)
                  else es + [Wake] == RoundEvents(rs)
        decreases |rounds|
      {
        ghost var mid, rs1, es1, s1 := rounds, rs, es, s';
        expired, rs1, es1, s1 := CondTimeout(msecs, s', m);
        AllMetConcat(old(rounds), mid, rs, rounds, rs1);
        RunConcat(s, es, es1);
        WaitAfter(es, rs, es1, rs1, EndOf(expired));
        rs, es, s' := rs + rs1, es + es1, s1;
        if expired {
          RunEnds(s, es, s', EndOf(expired), rs);
          return;
        }
        if response.final == null {
          RunSnoc(s, es, Wake);
          es, s' := es + [Wake], Step(s', Wake);
        }
      }
      RunEnds(s, es, s', EndOf(expired), rs);
    }

    /** The response leaves the channel: put in order of arrival and handed over, or released. */
    method HandOver(want: bool) returns (out: ATResponse?)
      requires Valid() && response != null
      modifies this`response, this`pdu, response, response.heap, set n: object | n in response.nodes
      ensures Valid() && response == null && Abs() == old(Abs()).(pending := None)
      ensures Settled(old(response), out) && old(response).lost == old(response.lost)
      ensures out == if want then old(response) else null
      ensures want ==> out.Valid() && Value(out) == old(Abs()).pending.value.response
      ensures want ==> out.nodes == Reverse(old(response.nodes))
    {
      if want {
        out := PutInOrder();
      } else {
        out := null;
        response.AccountedMeans();
        var _ := response.Free();
      }
      response, pdu := null, None;
    }

    method PutInOrder() returns (out: ATResponse)
      requires Valid() && response != null
      modifies response`head, response`nodes, response.nodes
      ensures out == response && Valid() && Settled(out, out)
      ensures Value(out) == old(Abs()).pending.value.response && out.nodes == Reverse(old(response.nodes))
    {
      response.ReverseIntermediates();
      out := response;
      SettledFrom(out);
    }

    /** Until the command is installed, or refused. */
    method Begin(req: Request, ghost s: Sys) returns (err: int, ghost e: Event)
      requires Valid() && s.chan == Abs() && s.thread.Idle?
      requires (req.command.Some? ==> NulFree(req.command.value)) && (req.pdu.Some? ==> NulFree(req.pdu.value))
      modifies this`response, this`kind, this`pdu, HeapOf(response), wire, wire.atCommand
      ensures Valid() && e.Issue? && e.req == req && Enabled(s, e) && Step(s, e).chan == Abs()
      ensures if err < 0
              then err == (if s.chan.pending.Some? then AT_ERROR_COMMAND_PENDING else AT_ERROR_GENERIC) &&
                   response == null &&
                   Step(s, e).outcomes == s.outcomes + [Refused(req, err)]
              else err == 0 && e == Issue(req, 0) && s.chan.pending.None? &&
                   Step(s, e).thread == Waiting(Call(req, s.chan, []), 0) &&
                   response != null && fresh(response) && fresh(response.heap) &&
                   response.nodes == [] && response.final == null && response.lost == []
      ensures if req.command.Some? && err != AT_ERROR_COMMAND_PENDING
              then Wire.Put(old(wire.events), wire.events, old(wire.sent), wire.sent,
                            req.command.value + [13 as char], err == 0)
              else wire.sent == old(wire.sent) && wire.events == old(wire.events)
    {
      if response != null {
        err := AT_ERROR_COMMAND_PENDING;
        e := Issue(req, 0);
        ClearPending();
        return;
      }
      err := 0;
      if req.command.Some? {
        err := wire.WriteLine(req.command.value);
      }
      e := Issue(req, err);
      if err < 0 {
        ClearPending();
        return;
      }
      kind, pdu := req.kind, req.pdu;
      response := new ATResponse();
    }

    /** From the wait to the return. */
    method Await(msecs: nat, want: bool, ghost s: Sys, ghost m: Mark)
      returns (err: int, out: ATResponse?, ghost rs: seq<Round>, ghost s': Sys, ghost o: Outcome)
      requires Valid() && s.chan == Abs() && s.thread.Waiting? && InCall(s.thread.call, m) && response.final == null
      requires s.thread.elapsed == 0 && 0 < msecs == Msecs(s.thread.call.req) && Slices.NoWrap(msecs)
      modifies this`response, this`pdu, this`raw, this`unsol, this`pdus, this`raws, this`rounds
      modifies response, response.heap, wire, set n: object | n in response.nodes
      ensures Valid() && s'.chan == Abs() && response == null
      ensures Run(s, RoundEvents(rs)) == Some(s') && s'.thread.Idle? && AllMet(old(rounds), rounds, rs)
      ensures s'.outcomes == s.outcomes + [o] && !o.Refused? && IsExpected(o) && Leaves(old(response), out, o)
      ensures Reported(o, s.thread.call.req, want, err, out, s.thread.call.before)
      ensures PduTried(o.call, m.events, wire.events, m.sent, wire.sent)
    {
      ghost var s1;
      var expired;
      expired, rs, s1 := WaitForFinal(msecs, s, m);
      err, out, s', o := Conclude(expired, want, s1, m);
    }

    /** From the end of the wait to the return. */
    method Conclude(expired: bool, want: bool, ghost s: Sys, ghost m: Mark)
      returns (err: int, out: ATResponse?, ghost s': Sys, ghost o: Outcome)
      requires Valid() && s.chan == Abs() && s.thread.Waiting? && InCall(s.thread.call, m)
      requires if expired then s.thread.elapsed + Slice(Msecs(s.thread.call.req)) >= Msecs(s.thread.call.req)
               else response.final != null
      modifies this`response, this`pdu, response, response.heap, set n: object | n in response.nodes
      ensures Enabled(s, EndOf(expired)) && s' == Step(s, EndOf(expired)) && s'.chan == Abs() && s'.thread.Idle?
      ensures Valid() && response == null && s'.outcomes == s.outcomes + [o] && Leaves(old(response), out, o)
      ensures !o.Refused? && o.call == s.thread.call && IsExpected(o)
      ensures Reported(o, s.thread.call.req, want, err, out, s.thread.call.before)
    {
      o := WaitEnds(s, expired);
      s' := Step(s, EndOf(expired));
      LastIsStored(Chars(response.lost), response.FinalLine(), Finals(Untriggered(s.thread.call)));
      assert Chars(response.lost) == Replaced(o);
      err, out := EndCall(expired, want);
    }

    /** The end of the call: a timeout, or the response. */
    method EndCall(expired: bool, want: bool) returns (err: int, out: ATResponse?)
      requires Valid() && response != null
      modifies this`response, this`pdu, response, response.heap, set n: object | n in response.nodes
      ensures Valid() && response == null && Abs() == old(Abs()).(pending := None)
      ensures Settled(old(response), out) && old(response).lost == old(response.lost)
      ensures if expired then err == AT_ERROR_TIMEOUT && out == null
              else err == 0 && out == (if want then old(response) else null) &&
                   (want ==> out.Valid() && Value(out) == old(Abs()).pending.value.response)
    {
      if expired {
        response.AccountedMeans();
        ClearPending();
        return AT_ERROR_TIMEOUT, null;
      }
      out := HandOver(want);
      err := 0;
    }

    /** `at_send_command_full_nolock`: writes the command, installs it, waits and hands over the
        response.  The call is one run of the protocol: the event that issues the command and
        then the events of the rounds that were met. */
    method SendCommandFull(req: Request, want: bool, ghost s: Sys)
      returns (err: int, out: ATResponse?, ghost e: Event, ghost rs: seq<Round>, ghost s': Sys, ghost o: Outcome,
               ghost r: ATResponse?)
      requires Valid() && s.chan == Abs() && s.thread.Idle? && Slices.NoWrap(Msecs(req))
      requires (req.command.Some? ==> NulFree(req.command.value)) && (req.pdu.Some? ==> NulFree(req.pdu.value))
      modifies this, HeapOf(response), wire, wire.atCommand
      ensures Valid() && s'.chan == Abs() && response == null
      ensures e.Issue? && e.req == req && AllMet(old(rounds), rounds, rs)
      ensures if o.Refused? then rs == [] else e == Issue(req, 0)
      ensures Run(s, [e] + RoundEvents(rs)) == Some(s') && s'.thread.Idle?
      ensures s'.outcomes == s.outcomes + [o] && Reported(o, req, want, err, out, s.chan)
      ensures o.Delivered? ==> MadeOf(o.call, o.response)
      ensures (out != null ==> fresh(out)) && (err == -2 <==> s.chan.pending.Some?)
      ensures if o.Refused? then r == null else r != null && fresh(r) && fresh(r.heap) && Leaves(r, out, o)
      ensures Sent(req, o, old(wire.events), wire.events, old(wire.sent), wire.sent)
    {
      err, e := Begin(req, s);
      rs := [];
      ghost var first;
      first, s' := Only(s, e);
      if err < 0 {
        out, o, r := null, Refused(req, err), null;
        assert [e] + RoundEvents(rs) == [e];
        return;
      }
      InstalledIsExpected(req, s.chan);
      r := response;
      err, out, rs, s', o := CallInstalled(req, want, s, s', old(wire.events), old(wire.sent));
    }

    /** From the installed command to the return, seen from before the command. */
    method CallInstalled(req: Request, want: bool, ghost before: Sys, ghost s: Sys,
                         ghost events: seq<Wire.WriteEvent>, ghost sent: string)
      returns (err: int, out: ATResponse?, ghost rs: seq<Round>, ghost s': Sys, ghost o: Outcome)
      requires Valid() && s.chan == Abs() && s.thread == Waiting(Call(req, before.chan, []), 0)
      requires response != null && response.final == null && InCall(s.thread.call, Mark(wire.events, wire.sent))
      requires Run(before, [Issue(req, 0)]) == Some(s) && s.outcomes == before.outcomes && Slices.NoWrap(Msecs(req))
      requires CommandSent(req, events, wire.events, sent, wire.sent)
      modifies this`response, this`pdu, this`raw, this`unsol, this`pdus, this`raws, this`rounds
      modifies response, response.heap, wire, set n: object | n in response.nodes
      ensures Valid() && s'.chan == Abs() && response == null && AllMet(old(rounds), rounds, rs)
      ensures Run(before, [Issue(req, 0)] + RoundEvents(rs)) == Some(s') && s'.thread.Idle?
      ensures s'.outcomes == before.outcomes + [o] && !o.Refused? && Reported(o, req, want, err, out, before.chan)
      ensures o.Delivered? ==> MadeOf(o.call, o.response)
      ensures Leaves(old(response), out, o) && Sent(req, o, events, wire.events, sent, wire.sent)
    {
      ghost var m := Mark(wire.events, wire.sent);
      err, out, rs, s', o := Await(Msecs(req), want, s, m);
      RunConcat(before, [Issue(req, 0)], RoundEvents(rs));
      if o.Delivered? { ExpectedIsMadeOf(o.call); }
      assert CommandSent(req, events, m.events, sent, m.sent);
    }

    /** The check of the typed wrappers: a successful response without a line is released. */
    method ReleaseEmpty(out: ATResponse, ghost o: Outcome) returns (empty: bool)
      requires out.Valid() && Leaves(out, out, o)
      modifies out.heap
      ensures empty <==> out.success && out.head == null
      ensures Leaves(out, if empty then null else out, o)
    {
      empty := out.success && out.head == null;
      if empty {
        var _ := out.Free();
      }
    }

    /** `at_send_command_singleline`, `_numeric`, `_asciicode` and `_sms`, in any reachable state
        of the system: a successful response that is handed over has its one line, which passed
        the command's test, so the caller may read it.  Without a place for the response nothing
        is checked. */
    method SendSingle(command: string, kind: Kind, pdu: Option<string>, want: bool,
                      ghost raw: Option<string>, ghost before: seq<Event>, ghost s: Sys)
      returns (err: int, out: ATResponse?, ghost es: seq<Event>, ghost s': Sys, ghost o: Outcome,
               ghost r: ATResponse?)
      requires kind.SingleLine? || kind.Numeric? || kind.AsciiCode?
      requires NulFree(command) && (pdu.Some? ==> NulFree(pdu.value))
      requires Valid() && s.chan == Abs() && s.thread.Idle? && Run(Start(raw, proxy), before) == Some(s)
      modifies this, HeapOf(response), wire, wire.atCommand
      ensures Valid() && s'.chan == Abs() && s'.thread.Idle? && Run(Start(raw, proxy), before + es) == Some(s')
      ensures s'.outcomes == s.outcomes + [o] && (out != null <==> err == 0 && want)
      ensures err == 0 ==> o.Delivered?
      ensures out != null ==> fresh(out) && out.Valid() && Value(out) == o.response
      ensures o.Delivered? ==> MadeOf(o.call, o.response)
      ensures out != null && out.success ==>
                |out.nodes| == 1 && Wanted(kind, out.head.text.chars) &&
                var x := out.head.text.chars;
                match kind
                case SingleLine(prefix) => prefix <= x
                case Numeric => x != "" && '0' <= x[0] <= '9'
                case _ => Answers(AsciiCode, x)
      ensures err == -6 <==> want && o.Delivered? && o.response.success && o.response.lines == []
      ensures if o.Refused? then r == null else r != null && fresh(r) && fresh(r.heap) && Leaves(r, out, o)
      ensures Sent(Request(Some(command), kind, pdu, 0), o, old(wire.events), wire.events, old(wire.sent), wire.sent)
    {
      var req := Request(Some(command), kind, pdu, 0);
      Slices.ShortWaitsDoNotWrap(Msecs(req));
      ghost var e, rs;
      err, out, e, rs, s', o, r := SendCommandFull(req, want, s);
      es := [e] + RoundEvents(rs);
      RunConcat(Start(raw, proxy), before, es);
      SingleReport(raw, before + es, s, s', o, req, want, err, out);
      if err == 0 && want {
        var empty := ReleaseEmpty(out, o);
        if empty {
          return AT_ERROR_INVALID_RESPONSE, null, es, s', o, r;
        }
      }
    }
  }

  /** What is known of the report of a call that takes one line. */
  lemma SingleReport(raw: Option<string>, es: seq<Event>, s: Sys, s': Sys, o: Outcome, req: Request, want: bool,
                     err: int, out: ATResponse?)
    requires Run(Start(raw, s.chan.proxy), es) == Some(s') && !req.kind.MultiLine?
    requires s'.outcomes == s.outcomes + [o] && Reported(o, req, want, err, out, s.chan)
    ensures (out != null <==> err == 0 && want) && err != AT_ERROR_INVALID_RESPONSE && (err == 0 <==> o.Delivered?)
    ensures out != null ==> out.Valid() && Value(out) == o.response && (out.head == null <==> o.response.lines == [])
    ensures out != null && out.head != null ==>
              |out.nodes| == 1 && Wanted(req.kind, out.head.text.chars)
  {
    assert o == Last(s'.outcomes);
    if out != null {
      SingleDelivered(raw, s.chan.proxy, es, s');
      FirstLine(out);
    }
  }

  lemma SingleDelivered(raw: Option<string>, proxy: bool, es: seq<Event>, s: Sys)
    requires Run(Start(raw, proxy), es) == Some(s)
    requires s.outcomes != [] && Last(s.outcomes).Delivered? && !Last(s.outcomes).call.req.kind.MultiLine?
    ensures var r := Last(s.outcomes).response;
            |r.lines| <= 1 &&
            (r.lines != [] ==> Wanted(Last(s.outcomes).call.req.kind, r.lines[0]))
  {
    ProtocolRuns.WrapperGuarantee(raw, proxy, es, s, |s.outcomes| - 1);
    var r := Last(s.outcomes).response;
    if r.lines != [] {
      assert r.lines[0] in r.lines;
      WantedSpelled(Last(s.outcomes).call.req.kind, r.lines[0]);
    }
  }

  /** The first line of a response is the one its list head points to. */
  lemma FirstLine(r: ATResponse)
    requires r.Valid()
    ensures r.head == null <==> r.Lines() == []
    ensures |r.Lines()| == |r.nodes|
    ensures r.head != null ==> r.head.text.chars == r.Lines()[0]
  {
  }

  /** The last event of the wait. */
  lemma RunEnds(s: Sys, es: seq<Event>, m: Sys, e: Event, rs: seq<Round>)
    requires Run(s, es) == Some(m) && Enabled(m, e) && es + [e] == RoundEvents(rs)
    ensures Run(s, RoundEvents(rs)) == Some(Step(m, e))
  {
    RunSnoc(s, es, e);
  }

  /** How the outcome of a call is reported to its caller. */
  ghost predicate Reported(o: Outcome, req: Request, want: bool, err: int, out: ATResponse?, before: Chan)
    reads out, if out == null then {} else set n: object | n in out.nodes
  {
    match o
    case Delivered(call, r) =>
      call.req == req && call.before == before && err == 0 && (out != null <==> want) &&
      (out != null ==> out.Valid() && Value(out) == r)
    case TimedOut(call) => call.req == req && call.before == before && err == -4 && out == null
    case Refused(q, e) => q == req && err == e && out == null && (e == -1 || e == -2)
  }

  /** A response, if it is one, is the one of the reference. */
  ghost predicate IsExpected(o: Outcome)
  {
    o.Delivered? ==> o.response == ExpectedResponse(o.call) && o.response.final.Some?
  }

  /** A response handed over, its lines in the order of the list. */
  ghost function Value(r: ATResponse): Response
    reads r
  {
    Response(r.success, r.FinalLine(), r.Lines())
  }

  /** A wait of which i milliseconds have expired: the run so far, made up of the rounds met; the
      last slice is left open. */
  ghost predicate SliceState(s: Sys, es: seq<Event>, s': Sys, rs: seq<Round>, i: nat, msecs: nat)
  {
    s'.thread.Waiting? && Run(s, es) == Some(s') && SameWait(s, s', s'.thread.elapsed) &&
    if i < msecs then s'.thread.elapsed == i && es == RoundEvents(rs) && Slices.AtSlice(msecs, i)
    else s'.thread.elapsed + Slice(msecs) >= msecs && es + [SliceTimeout] == RoundEvents(rs)
  }

  /** A slice that expires: the counter goes on, and so does the wait unless it was the last. */
  lemma SliceExpires(s: Sys, es: seq<Event>, m: Sys, rs: seq<Round>, i: nat, msecs: nat)
    returns (es': seq<Event>, s': Sys)
    requires m.thread.Waiting? && Run(s, es) == Some(m) && SameWait(s, m, i) && es + [SliceTimeout] == RoundEvents(rs)
    requires i < msecs == Msecs(s.thread.call.req) && Slices.NoWrap(msecs) && Slices.AtSlice(msecs, i)
    ensures s'.thread.Waiting? && s'.thread.call == m.thread.call && s'.chan == m.chan
    ensures Slices.Add(i, Slice(msecs)) == i + Slice(msecs) && SliceState(s, es', s', rs, i + Slice(msecs), msecs)
  {
    Slices.CounterDoesNotWrap(msecs, i);
    es', s' := es, m;
    if i + Slice(msecs) < msecs {
      RunSnoc(s, es, SliceTimeout);
      WaitGoesOn(m);
      es', s' := es + [SliceTimeout], Step(m, SliceTimeout);
    }
  }

  /** One slice more. */
  lemma SliceStep(s: Sys, es: seq<Event>, m: Sys, rs: seq<Round>, r: Round, s1: Sys, i: nat, msecs: nat)
    returns (es': seq<Event>, s': Sys)
    requires SliceState(s, es, m, rs, i, msecs) && i < msecs == Msecs(s.thread.call.req) && Slices.NoWrap(msecs)
    requires Run(m, LineEvents(r.lines)) == Some(s1) && SameWait(m, s1, m.thread.elapsed)
    ensures s'.thread.Waiting? && s'.thread.call == s1.thread.call && s'.chan == s1.chan
    ensures if r.expires then SliceState(s, es', s', rs + [r], Slices.Add(i, Slice(msecs)), msecs) &&
                               Slices.Add(i, Slice(msecs)) == i + Slice(msecs)
            else Run(s, es') == Some(s') && SameWait(s, s', s'.thread.elapsed) && es' + [Wake] == RoundEvents(rs + [r])
  {
    LinesAfter(s, es, m, rs, r);
    es', s' := es + LineEvents(r.lines), s1;
    if r.expires {
      es', s' := SliceExpires(s, es', s1, rs + [r], i, msecs);
    }
  }

  /** A slice that is not the last one. */
  lemma WaitGoesOn(s: Sys)
    requires s.thread.Waiting? && s.thread.elapsed + Slice(Msecs(s.thread.call.req)) < Msecs(s.thread.call.req)
    ensures var call := s.thread.call;
            Step(s, SliceTimeout) == Sys(s.chan, Waiting(call, s.thread.elapsed + Slice(Msecs(call.req))), s.outcomes)
  {
  }

  /** The event that ends the wait, and the outcome it leaves. */
  lemma WaitEnds(s: Sys, expired: bool) returns (o: Outcome)
    requires s.thread.Waiting? && s.chan.pending.Some?
    requires if expired then s.thread.elapsed + Slice(Msecs(s.thread.call.req)) >= Msecs(s.thread.call.req)
             else s.chan.pending.value.response.final.Some?
    ensures o == if expired then TimedOut(s.thread.call) else Delivered(s.thread.call, s.chan.pending.value.response)
    ensures Step(s, EndOf(expired)) == Sys(s.chan.(pending := None), Idle, s.outcomes + [o])
  {
    o := if expired then TimedOut(s.thread.call) else Delivered(s.thread.call, s.chan.pending.value.response);
  }

  /** A run of one event. */
  ghost method Only(s: Sys, e: Event) returns (es: seq<Event>, s': Sys)
    requires Enabled(s, e)
    ensures es == [e] && s' == Step(s, e) && Run(s, es) == Some(s')
  {
    es, s' := [e], Step(s, e);
    RunSnoc(s, [], e);
    assert [] + [e] == [e];
  }

  /** A write whose result nobody looks at. */
  ghost predicate Tried(was: seq<Wire.WriteEvent>, now: seq<Wire.WriteEvent>, before: string, after: string,
                        text: string)
  {
    Wire.Put(was, now, before, after, text, true) || Wire.Put(was, now, before, after, text, false)
  }

  // ----- what a call has sent and kept -----

  ghost function OwnedBy(r: ATResponse?): set<object>
    reads r
  {
    if r == null then {} else r.Owned()
  }

  ghost function HeapOf(r: ATResponse?): set<object>
  {
    if r == null then {} else {r.heap}
  }

  /** What is live of a response after its call: the lost strings, each of them once, and the
      response itself if it is handed out. */
  ghost predicate Settled(r: ATResponse, out: ATResponse?)
    reads r`lost, r.heap, out
  {
    r.heap.live == r.Lost() + OwnedBy(out) && r.Lost() !! OwnedBy(out) &&
    Distinct(r.lost)
  }

  lemma SettledFrom(r: ATResponse)
    requires r.Accounted()
    ensures Settled(r, r)
  {
    r.AccountedMeans();
  }

  /** What a call that was not refused leaves allocated. */
  ghost predicate Leaves(r: ATResponse, out: ATResponse?, o: Outcome)
    reads r`lost, r.heap, out
  {
    (out == null || out == r) && Settled(r, out) && Chars(r.lost) == Replaced(o)
  }

  lemma {:induction false} CountOfDistinct(ts: seq<Text>)
    requires Distinct(ts)
    ensures |set t: object | t in ts| == |ts|
  {
    if ts != [] {
      var init, t := ts[..|ts| - 1], Last(ts);
      assert ts == init + [t];
      DistinctSnoc(init, t);
      CountOfDistinct(init);
      assert (set x: object | x in ts) == (set x: object | x in init) + {t};
    }
  }

  /** Exactly how much a call leaves allocated besides the response it hands out: one string for
      every final line but the last, and so nothing if and only if there was at most one. */
  lemma OnlyOutStays(r: ATResponse, out: ATResponse?, o: Outcome)
    requires Leaves(r, out, o) && !o.Refused?
    ensures |r.heap.live - OwnedBy(out)| == |Replaced(o)|
    ensures r.heap.live == OwnedBy(out) <==> |Finals(Untriggered(o.call))| <= 1
  {
    assert r.heap.live - OwnedBy(out) == r.Lost();
    CountOfDistinct(r.lost);
    assert r.lost != [] ==> r.lost[0] in r.Lost();
  }

  lemma ConnectIsFinal()
    ensures IsFinal(CONNECT)
  {
    assert SUCCESS_FINALS[2] <= CONNECT;
  }

  /** The line is stored as a final one. */
  predicate Files(c: Chan, line: string)
  {
    IsFinal(line) && !(c.raw.Some? && line == CONNECT)
  }

  /** The moment a command was installed: the writes to come and the bytes sent. */
  datatype Mark = Mark(events: seq<Wire.WriteEvent>, sent: string)

  /** The final lines of a call that later ones replaced. */
  function Replaced(o: Outcome): seq<string>
  {
    if o.Refused? then []
    else
      var fs := Finals(Untriggered(o.call));
      if fs == [] then [] else fs[..|fs| - 1]
  }

  /** The PDU and control-Z were tried if the prompt has come, and nothing else was written. */
  ghost predicate PduTried(c: Call, was: seq<Wire.WriteEvent>, now: seq<Wire.WriteEvent>, before: string, after: string)
  {
    if c.req.pdu.Some? && "> " in c.window
    then Tried(was, now, before, after, c.req.pdu.value + [26 as char])
    else now == was && after == before
  }

  /** The command and a CR in full, if there is one. */
  ghost predicate CommandSent(req: Request, was: seq<Wire.WriteEvent>, now: seq<Wire.WriteEvent>,
                              before: string, after: string)
  {
    if req.command.Some? then Wire.Put(was, now, before, after, req.command.value + [13 as char], true)
    else now == was && after == before
  }

  /** All that a call has sent: a proper front of a refused command; or the command, and then the
      PDU if the prompt came. */
  ghost predicate Sent(req: Request, o: Outcome, was: seq<Wire.WriteEvent>, now: seq<Wire.WriteEvent>,
                       before: string, after: string)
  {
    match o
    case Refused(_, err) =>
      if req.command.Some? && err != AT_ERROR_COMMAND_PENDING
      then Wire.Put(was, now, before, after, req.command.value + [13 as char], false)
      else now == was && after == before
    case _ =>
      exists mid: seq<Wire.WriteEvent>, sent: string ::
        CommandSent(req, was, mid, before, sent) && PduTried(o.call, mid, now, sent, after)
  }

  /** The final lines of a call grow by those that are stored. */
  lemma FinalsByLine(c: Call, x: string)
    ensures Finals(Untriggered(c.(window := c.window + [x]))) ==
            Finals(Untriggered(c)) + if Files(Expected(c), x) then [x] else []
  {
    UntriggeredSnoc(c, x);
    PromptIsNotFinal();
    FiltersSnoc(c.req.kind, c.before.proxy, Untriggered(c), x);
  }

  lemma PduByLine(c: Call, x: string, was: seq<Wire.WriteEvent>, now: seq<Wire.WriteEvent>, next: seq<Wire.WriteEvent>,
                  before: string, after: string, sent: string)
    requires PduTried(c, was, now, before, after)
    requires var e, e' := Expected(c), Expected(c.(window := c.window + [x]));
             if e'.pdus == e.pdus then sent == after && next == now
             else Tried(now, next, after, sent, Last(e'.pdus) + [26 as char])
    ensures PduTried(c.(window := c.window + [x]), was, next, before, sent)
  {
    TriggersSnoc(c.req.pdu, c.window, x, PROMPT);
    Grows(c.before.pdus, Spent(c.req.pdu, c.window, PROMPT), c.req.pdu.GetOr(""));
  }

  /** All final lines but the last are lost. */
  lemma LastIsStored(lost: seq<string>, final: Option<string>, fs: seq<string>)
    requires lost + (if final.None? then [] else [final.value]) == fs && (final.None? <==> fs == [])
    ensures lost == if fs == [] then [] else fs[..|fs| - 1]
  {
    assert final.None? ==> lost + [] == lost;
    if final.Some? { assert fs[..|fs| - 1] == lost; }
  }

  lemma InstalledIsExpected(req: Request, before: Chan)
    requires before.pending.None?
    ensures var c := Call(req, before, []);
            Install(before, req) == Expected(c) && Finals(Untriggered(c)) == [] && c.window == []
  {
    ProtocolRuns.InstallIsExpected(before, req);
  }

  // ----- rounds as events -----

  function LineEvents(ls: seq<string>): seq<Event>
  {
    if ls == [] then [] else LineEvents(ls[..|ls| - 1]) + [Line(Last(ls))]
  }

  lemma LineEventsSnoc(ls: seq<string>, i: nat)
    requires i < |ls|
    ensures LineEvents(ls[..i + 1]) == LineEvents(ls[..i]) + [Line(ls[i])]
  {
    assert ls[..i + 1][..i] == ls[..i];
  }

  /** One line more. */
  lemma LineStep(s: Sys, m: Sys, ls: seq<string>, i: nat) returns (s': Sys)
    requires i < |ls| && Run(s, LineEvents(ls[..i])) == Some(m)
    requires s.thread.Waiting? && SameWait(s, m, s.thread.elapsed)
    ensures Run(s, LineEvents(ls[..i + 1])) == Some(s') && SameWait(s, s', s.thread.elapsed)
    ensures s'.chan == Protocol.ProcessLine(m.chan, ls[i])
    ensures s'.thread.call == m.thread.call.(window := m.thread.call.window + [ls[i]])
  {
    LineEventsSnoc(ls, i);
    RunSnoc(s, LineEvents(ls[..i]), Line(ls[i]));
    s' := Step(m, Line(ls[i]));
  }

  function EndOf(expired: bool): Event
  {
    if expired then SliceTimeout else Wake
  }

  /** The events of a list of rounds: the lines of each and then its end. */
  function RoundEvents(rs: seq<Round>): seq<Event>
  {
    if rs == [] then []
    else RoundEvents(rs[..|rs| - 1]) + LineEvents(Last(rs).lines) + [EndOf(Last(rs).expires)]
  }

  lemma RoundEventsSnoc(rs: seq<Round>, r: Round)
    ensures RoundEvents(rs + [r]) == RoundEvents(rs) + LineEvents(r.lines) + [EndOf(r.expires)]
  {
    assert (rs + [r])[..|rs|] == rs;
  }

  lemma {:induction false} RoundEventsConcat(a: seq<Round>, b: seq<Round>)
    ensures RoundEvents(a + b) == RoundEvents(a) + RoundEvents(b)
  {
    if b == [] {
      assert a + b == a;
    } else {
      var b' := b[..|b| - 1];
      assert a + b == (a + b') + [Last(b)];
      RoundEventsConcat(a, b');
      RoundEventsSnoc(a + b', Last(b));
    }
  }

  /** A round after others. */
  lemma LinesAfter(s: Sys, es: seq<Event>, m: Sys, rs: seq<Round>, r: Round)
    requires es == RoundEvents(rs) && Run(s, es) == Some(m)
    ensures Run(s, es + LineEvents(r.lines)) == Run(m, LineEvents(r.lines))
    ensures es + LineEvents(r.lines) + [EndOf(r.expires)] == RoundEvents(rs + [r])
  {
    RunConcat(s, es, LineEvents(r.lines));
    RoundEventsSnoc(rs, r);
  }

  /** One wait after others. */
  lemma WaitAfter(es: seq<Event>, rs: seq<Round>, es1: seq<Event>, rs1: seq<Round>, e: Event)
    requires es == RoundEvents(rs) && es1 + [e] == RoundEvents(rs1)
    ensures (es + es1) + [e] == RoundEvents(rs + rs1)
  {
    RoundEventsConcat(rs, rs1);
    assert es + (es1 + [e]) == (es + es1) + [e];
  }

  /** A wait meets the first round still to come, or one that just expires. */
  ghost predicate Meets(was: seq<Round>, now: seq<Round>, r: Round)
  {
    if was == [] then now == [] && r == Round([], true) else now == was[1..] && r == was[0]
  }

  /** The rounds met are the first ones still to come, and then ones that just expire. */
  ghost predicate AllMet(was: seq<Round>, now: seq<Round>, rs: seq<Round>)
    decreases |rs|
  {
    if rs == [] then was == now
    else if was == [] then rs[0] == Round([], true) && AllMet([], now, rs[1..])
    else rs[0] == was[0] && AllMet(was[1..], now, rs[1..])
  }

  lemma {:induction false} AllMetConcat(was: seq<Round>, mid: seq<Round>, a: seq<Round>, now: seq<Round>, b: seq<Round>)
    requires AllMet(was, mid, a) && AllMet(mid, now, b)
    ensures AllMet(was, now, a + b)
    decreases |a|
  {
    if a == [] {
      assert a + b == b;
    } else {
      assert (a + b)[1..] == a[1..] + b;
      AllMetConcat(if was == [] then [] else was[1..], mid, a[1..], now, b);
    }
  }

  lemma AllMetSnoc(was: seq<Round>, mid: seq<Round>, rs: seq<Round>, now: seq<Round>, r: Round)
    requires AllMet(was, mid, rs) && Meets(mid, now, r)
    ensures AllMet(was, now, rs + [r])
    ensures |now| <= |mid| && (!r.expires ==> |now| < |mid|)
  {
    assert [r][1..] == [];
    AllMetConcat(was, mid, rs, now, [r]);
  }

  /** Still the same call of the same issuer, at this point of its wait. */
  ghost predicate SameWait(s: Sys, s': Sys, elapsed: nat)
  {
    s.thread.Waiting? && s'.thread.Waiting? && s'.thread.elapsed == elapsed && s'.outcomes == s.outcomes &&
    s'.thread.call.req == s.thread.call.req && s'.thread.call.before == s.thread.call.before
  }
}
