/** `writeline` and `writeCtrlZ`: putting a whole command on a descriptor that accepts as many
    bytes at a time as it likes. */
module Wire {
  import opened CText
  import Protocol

  const CR: string := "\r"
  const CTRL_Z: string := "\U{1A}"
  const AT_COMMAND_SIZE: nat := 64

  /** What the writes will meet, in order; after the last one everything is accepted. */
  datatype WriteEvent = Accept(count: nat) | Interrupted | Fail

  datatype WriteResult = Wrote(count: nat) | Eintr | Error

  /** Of the events `was`, those before `now` have been met, and none of them is a failure,
      except the last one if `failed`. */
  ghost predicate Met(was: seq<WriteEvent>, now: seq<WriteEvent>, failed: bool)
  {
    var d := |was| - |now|;
    d >= 0 && now == was[d..] &&
    if failed then d > 0 && was[d - 1].Fail? && Fail !in was[..d - 1] else Fail !in was[..d]
  }

  /** A text has been put on the wire, or a write failed and left a proper prefix of it. */
  ghost predicate Put(was: seq<WriteEvent>, now: seq<WriteEvent>, before: string, after: string, text: string, ok: bool)
  {
    Met(was, now, !ok) &&
    if ok then after == before + text else exists k :: 0 <= k < |text| && after == before + text[..k]
  }

  lemma MetStep(was: seq<WriteEvent>, before: seq<WriteEvent>, now: seq<WriteEvent>, failed: bool)
    requires Met(was, before, false)
    requires if before == [] then !failed && now == []
             else now == before[1..] && (failed <==> before[0].Fail?)
    ensures Met(was, now, failed)
  {
    var d := |was| - |before|;
    if before != [] {
      assert before[1..] == was[d + 1..];
      assert was[..d + 1] == was[..d] + [was[d]];
    }
  }

  class Line {
    var events: seq<WriteEvent>
    var sent: string
    const atCommand: array<char>

    ghost predicate Valid() { atCommand.Length == AT_COMMAND_SIZE }

    constructor (events: seq<WriteEvent>)
      ensures Valid() && fresh(atCommand)
      ensures this.events == events && sent == ""
    {
      this.events, sent := events, "";
      atCommand := new char[AT_COMMAND_SIZE](_ => NUL);
    }

    /** `write`. */
    method Write(data: string) returns (r: WriteResult)
      modifies this`events, this`sent
      ensures match r
              case Wrote(n) => n <= |data| && sent == old(sent) + data[..n]
              case Eintr => sent == old(sent)
              case Error => sent == old(sent)
      ensures if old(events) == [] then r == Wrote(|data|) && events == []
              else events == old(events)[1..] && (r.Error? <==> old(events)[0].Fail?)
    {
      if events == [] {
        sent := sent + data;
        return Wrote(|data|);
      }
      var e := events[0];
      events := events[1..];
      match e
      case Interrupted => r := Eintr;
      case Fail => r := Error;
      case Accept(n) =>
        var k := if n <= |data| then n else |data|;
        sent := sent + data[..k];
        r := Wrote(k);
    }

    /** The loop over partial writes. */
    method WriteAll(data: string, ghost was: seq<WriteEvent>) returns (ok: bool)
      requires Met(was, events, false)
      modifies this`events, this`sent
      ensures Met(was, events, !ok)
      ensures if ok then sent == old(sent) + data else exists k :: 0 <= k < |data| && sent == old(sent) + data[..k]
    {
      var cur := 0;
      while cur < |data|
        invariant 0 <= cur <= |data| && sent == old(sent) + data[..cur]
        invariant Met(was, events, false)
        decreases |events|, |data| - cur
      {
        ghost var before := events;
        var written := Write(data[cur..]);
        MetStep(was, before, events, written.Error?);
        while written.Eintr?
          invariant Met(was, events, written.Error?)
          invariant match written
                    case Wrote(n) => n <= |data| - cur && sent == old(sent) + data[..cur] + data[cur..][..n]
                    case _ => sent == old(sent) + data[..cur]
          invariant |events| < |before| || (events == [] && written == Wrote(|data| - cur))
          decreases written.Eintr?, |events|
        {
          ghost var again := events;
          written := Write(data[cur..]);
          MetStep(was, again, events, written.Error?);
        }
        if written.Error? {
          return false;
        }
        assert data[..cur] + data[cur..][..written.count] == data[..cur + written.count];
        cur := cur + written.count;
      }
      ok := true;
    }

    /** The single terminating byte, written until it is accepted. */
    method WriteByte(byte: string, ghost was: seq<WriteEvent>) returns (ok: bool)
      requires |byte| == 1 && Met(was, events, false)
      modifies this`events, this`sent
      ensures Met(was, events, !ok)
      ensures sent == old(sent) + if ok then byte else ""
    {
      ghost var before := events;
      var written := Write(byte);
      MetStep(was, before, events, written.Error?);
      while written.Eintr? || written == Wrote(0)
        invariant Met(was, events, written.Error?)
        invariant sent == old(sent) + if written == Wrote(1) then byte else ""
        invariant written.Wrote? ==> written.count <= 1
        decreases written.Eintr? || written == Wrote(0), |events|
      {
        ghost var again := events;
        written := Write(byte);
        MetStep(was, again, events, written.Error?);
      }
      ok := !written.Error?;
    }

    /** A command that leaves room for the CR goes out of a buffer with the CR appended; a longer
        one is followed by the CR in a write of its own.  Either way success means that exactly
        the command and the CR have been sent, and happens exactly when no write failed; after
        a failure a proper prefix has been sent. */
    method WriteLine(s: string) returns (err: int)
      requires Valid() && NulFree(s)
      modifies this, atCommand
      ensures err == 0 || err == -1
      ensures Put(old(events), events, old(sent), sent, s + [13 as char], err == 0)
    {
      ghost var was := events;
      assert Met(was, events, false);
      var len := |s|;
      var ok;
      if len < AT_COMMAND_SIZE - 1 {
        for i := 0 to len
          invariant atCommand[..i] == s[..i] && events == was && sent == old(sent)
        {
          atCommand[i] := s[i];
        }
        atCommand[len] := '\r';
        len := len + 1;
        assert atCommand[..len] == s + CR;
        ok := WriteAll(atCommand[..len], was);
        assert ok ==> sent == old(sent) + s + CR;
        return if ok then 0 else Protocol.AT_ERROR_GENERIC;
      }
      ok := WriteAll(s, was);
      if !ok {
        ghost var k :| 0 <= k < |s| && sent == old(sent) + s[..k];
        assert s[..k] == (s + CR)[..k];
        return Protocol.AT_ERROR_GENERIC;
      }
      ok := WriteByte(CR, was);
      if !ok {
        assert s == (s + CR)[..|s|];
        return Protocol.AT_ERROR_GENERIC;
      }
      err := 0;
    }

    /** The PDU of an SMS, ended by control-Z. */
    method WriteCtrlZ(s: string) returns (err: int)
      requires NulFree(s)
      modifies this`events, this`sent
      ensures err == 0 || err == -1
      ensures Put(old(events), events, old(sent), sent, s + [26 as char], err == 0)
    {
      ghost var was := events;
      assert Met(was, events, false);
      var ok := WriteAll(s, was);
      if !ok {
        ghost var k :| 0 <= k < |s| && sent == old(sent) + s[..k];
        assert s[..k] == (s + CTRL_Z)[..k];
        return Protocol.AT_ERROR_GENERIC;
      }
      ok := WriteByte(CTRL_Z, was);
      if !ok {
        assert s == (s + CTRL_Z)[..|s|];
        return Protocol.AT_ERROR_GENERIC;
      }
      err := 0;
    }
  }
}
