/** `findNextEOL` and `readline`: lines cut out of a fixed buffer that is refilled by reads of
    any size, shifted down, patched with NULs and ditched when it overflows. */
module LineReader {
  import opened CText
  import opened Splitter

  const MAX_AT_RESPONSE: nat := 4096

  // ----- the file descriptor -----

  /** What the reads of the descriptor will meet, in order; end of file after the last one. */
  datatype ReadEvent = Burst(bytes: string) | Interrupted | Failed

  datatype ReadResult = Got(data: string) | Eof | Eintr | Error

  function Bytes(events: seq<ReadEvent>): string
  {
    if events == [] then ""
    else (if events[0].Burst? then events[0].bytes else "") + Bytes(events[1..])
  }

  ghost predicate Readable(events: seq<ReadEvent>)
  {
    forall i :: 0 <= i < |events| && events[i].Burst? ==> events[i].bytes != "" && NulFree(events[i].bytes)
  }

  /** What is left when whole events have been taken from the front. */
  ghost predicate Later(events: seq<ReadEvent>, rest: seq<ReadEvent>)
  {
    |rest| <= |events| && rest == events[|events| - |rest|..]
  }

  lemma LaterStill(a: seq<ReadEvent>, b: seq<ReadEvent>, c: seq<ReadEvent>)
    requires Later(a, b) && Later(b, c)
    ensures Later(a, c)
  {
  }

  /** The next read finds at least this much. */
  ghost predicate FrontFills(events: seq<ReadEvent>, room: nat)
  {
    events != [] && events[0].Burst? && |events[0].bytes| >= room
  }

  class Port {
    var events: seq<ReadEvent>
    /** How many reads have filled all the room they were given. */
    ghost var filled: nat

    constructor (events: seq<ReadEvent>)
      ensures this.events == events && filled == 0
    {
      this.events, filled := events, 0;
    }

    /** `read` with room for `room` bytes: at most that much of what has arrived. */
    method Read(room: nat) returns (r: ReadResult)
      requires room > 0 && Readable(events)
      modifies this
      ensures Readable(events)
      ensures match r
              case Got(data) =>
                0 < |data| <= room && NulFree(data) && Bytes(old(events)) == data + Bytes(events)
              case Eof => old(events) == events == []
              case Eintr => Bytes(events) == Bytes(old(events))
              case Error => Bytes(events) == Bytes(old(events)) && Failed in old(events)
      ensures r.Eintr? ==> |events| < |old(events)|
      ensures Failed in events ==> Failed in old(events)
      ensures r.Got? ==> |Bytes(events)| < |Bytes(old(events))| && |events| <= |old(events)|
      ensures |Bytes(old(events))| <= room ==> Later(old(events), events)
      ensures filled == old(filled) + if r.Got? && |r.data| == room then 1 else 0
      ensures FrontFills(old(events), room) ==> r.Got? && |r.data| == room
    {
      if events == [] {
        return Eof;
      }
      var e, rest := events[0], events[1..];
      match e
      case Interrupted =>
        events := rest;
        r := Eintr;
      case Failed =>
        events := rest;
        r := Error;
      case Burst(bytes) =>
        if |bytes| <= room {
          events := rest;
          r := Got(bytes);
          filled := filled + if |bytes| == room then 1 else 0;
        } else {
          assert bytes == bytes[..room] + bytes[room..];
          events := [Burst(bytes[room..])] + rest;
          assert events[1..] == rest;
          r := Got(bytes[..room]);
          filled := filled + 1;
        }
    }
  }

  /** The read repeated while it is interrupted. */
  method ReadRetrying(port: Port, room: nat) returns (r: ReadResult)
    requires room > 0 && Readable(port.events)
    modifies port
    ensures Readable(port.events)
    ensures match r
            case Got(data) =>
              0 < |data| <= room && NulFree(data) && Bytes(old(port.events)) == data + Bytes(port.events)
            case Eof => port.events == [] && Bytes(old(port.events)) == ""
            case Eintr => false
            case Error => Bytes(port.events) == Bytes(old(port.events)) && Failed in old(port.events)
    ensures Failed in port.events ==> Failed in old(port.events)
    ensures |Bytes(old(port.events))| <= room ==> Later(old(port.events), port.events)
    ensures port.filled == old(port.filled) + if r.Got? && |r.data| == room then 1 else 0
    ensures FrontFills(old(port.events), room) ==> r.Got? && |r.data| == room
  {
    r := port.Read(room);
    while r.Eintr?
      invariant Readable(port.events)
      invariant match r
                case Got(data) =>
                  0 < |data| <= room && NulFree(data) && Bytes(old(port.events)) == data + Bytes(port.events)
                case Eof => port.events == [] && Bytes(old(port.events)) == ""
                case Eintr => Bytes(port.events) == Bytes(old(port.events))
                case Error => Bytes(port.events) == Bytes(old(port.events)) && Failed in old(port.events)
      invariant Failed in port.events ==> Failed in old(port.events)
      invariant |Bytes(old(port.events))| <= room ==> Later(old(port.events), port.events)
      invariant r.Eintr? ==> Bytes(port.events) == Bytes(old(port.events))
      invariant port.filled == old(port.filled) + if r.Got? && |r.data| == room then 1 else 0
      invariant FrontFills(old(port.events), room) ==> r.Got? && |r.data| == room
      decreases r.Eintr?, |port.events|
    {
      ghost var mid := port.events;
      r := port.Read(room);
      if |Bytes(old(port.events))| <= room { LaterStill(old(port.events), mid, port.events); }
    }
  }

  // ----- the buffer -----

  /** A buffer's worth thrown away: the newlines skipped in front, then the text ditched. */
  datatype Ditch = Ditch(newlines: string, text: string)

  function DitchedBytes(ds: seq<Ditch>): string
  {
    if ds == [] then "" else DitchedBytes(ds[..|ds| - 1]) + (Last(ds).newlines + Last(ds).text)
  }

  /** The overflow branch is only taken when newlines and text fill the buffer. */
  ghost predicate Overflowed(d: Ditch)
  {
    AllEols(d.newlines) && NoEols(d.text) && d.text != PROMPT && |d.newlines| + |d.text| >= MAX_AT_RESPONSE
  }

  ghost predicate AllOverflowed(ds: seq<Ditch>)
  {
    forall i :: 0 <= i < |ds| ==> Overflowed(ds[i])
  }

  /** How a call of `readline` ended: with a line and its terminator, with the prompt at the
      end of what has arrived, or with NULL. */
  datatype Ending = Terminated(text: string, eol: char) | Prompted | Closed

  /** One call of `readline`: what it ditched, the newlines it skipped, how it ended, and the
      old contents of the buffer that a prompt leaves pending although no read brought them. */
  datatype Reading = Reading(ds: seq<Ditch>, newlines: string, ending: Ending, stale: string)

  ghost predicate WellRead(g: Reading)
  {
    AllOverflowed(g.ds) && AllEols(g.newlines) && (g.stale != "" ==> g.ending.Prompted?) &&
    match g.ending
    case Terminated(text, eol) => text != "" && NoEols(text) && IsEol(eol) && |text| < MAX_AT_RESPONSE
    case _ => true
  }

  /** The bytes a call takes from the stream. */
  function ReadingBytes(g: Reading): string
  {
    DitchedBytes(g.ds) + g.newlines +
    match g.ending
    case Terminated(text, eol) => text + [eol]
    case Prompted => PROMPT
    case Closed => ""
  }

  /** The call took its bytes from the front of `whole` and left the rest, behind what is stale. */
  ghost predicate Took(whole: string, g: Reading, left: string)
  {
    var n := |ReadingBytes(g)|;
    ReadingBytes(g) <= whole && left == g.stale + whole[n..]
  }

  /** The bytes of `whole` are the ditched buffers, a newline run and `rest`. */
  ghost predicate Accounted(whole: string, ds: seq<Ditch>, newlines: string, rest: string)
  {
    whole == DitchedBytes(ds) + newlines + rest
  }

  lemma AccountReading(whole: string, ds: seq<Ditch>, newlines: string, ending: Ending, stale: string, rest: string)
    requires Accounted(whole, ds, newlines,
                       match ending
                       case Terminated(text, eol) => text + [eol] + rest
                       case Prompted => PROMPT + rest
                       case Closed => rest)
    ensures Took(whole, Reading(ds, newlines, ending, stale), stale + rest)
  {
    var bytes := ReadingBytes(Reading(ds, newlines, ending, stale));
    assert whole == bytes + rest;
    assert whole[|bytes|..] == rest;
  }

  lemma ClosedReading(whole: string, ds: seq<Ditch>, newlines: string, rest: string) returns (g: Reading)
    requires Accounted(whole, ds, newlines, rest) && AllOverflowed(ds) && AllEols(newlines)
    ensures g == Reading(ds, newlines, Closed, "") && WellRead(g) && Took(whole, g, rest)
  {
    g := Reading(ds, newlines, Closed, "");
    AccountReading(whole, ds, newlines, Closed, "", rest);
    assert "" + rest == rest;
  }

  /** The reading of a call that found a line: what was pending before the cursor moved past it,
      and what is pending now. */
  lemma LineReading(whole: string, ds: seq<Ditch>, newlines: string, ending: Ending,
                    before: string, after: string, bytes: string) returns (g: Reading)
    requires Accounted(whole, ds, newlines, before + bytes) && AllOverflowed(ds) && AllEols(newlines)
    requires match ending
             case Terminated(text, eol) =>
               text != "" && NoEols(text) && IsEol(eol) && |text| < MAX_AT_RESPONSE && before == text + [eol] + after
             case Prompted => before == PROMPT
             case Closed => false
    ensures g == Reading(ds, newlines, ending, if ending.Prompted? then after else "")
    ensures WellRead(g) && Took(whole, g, after + bytes)
  {
    g := Reading(ds, newlines, ending, if ending.Prompted? then after else "");
    var rest := if ending.Prompted? then bytes else after + bytes;
    assert ending.Terminated? ==> before + bytes == ending.text + [ending.eol] + rest;
    AccountReading(whole, ds, newlines, ending, g.stale, rest);
    assert "" + rest == rest;
  }

  lemma AccountTake(whole: string, ds: seq<Ditch>, newlines: string, held: string, data: string, rest: string,
                    skipped: string, pending: string)
    requires Accounted(whole, ds, newlines, held + (data + rest)) && held + data == skipped + pending
    ensures Accounted(whole, ds, newlines + skipped, pending + rest)
  {
    assert held + (data + rest) == (held + data) + rest == skipped + (pending + rest);
  }

  lemma AccountDitch(whole: string, ds: seq<Ditch>, newlines: string, text: string, rest: string)
    requires Accounted(whole, ds, newlines, text + rest)
    ensures Accounted(whole, ds + [Ditch(newlines, text)], "", rest)
  {
    var ds' := ds + [Ditch(newlines, text)];
    assert ds'[..|ds'| - 1] == ds;
    assert DitchedBytes(ds') + "" == DitchedBytes(ds) + newlines + text;
  }

  function FirstNul(b: seq<char>, i: nat): (n: nat)
    requires i < |b| && Last(b) == NUL
    ensures i <= n < |b| && b[n] == NUL && forall k :: i <= k < n ==> b[k] != NUL
    decreases |b| - i
  {
    if b[i] == NUL then i else FirstNul(b, i + 1)
  }

  /** The string at a cell. */
  ghost function CString(b: seq<char>, i: nat): string
    requires i < |b| && Last(b) == NUL
  {
    b[i..FirstNul(b, i)]
  }

  lemma {:induction false} SameString(a: seq<char>, b: seq<char>, i: nat)
    requires |a| == |b| && i < |a| && Last(a) == Last(b) == NUL
    requires forall k :: i <= k < |a| ==> a[k] == b[k]
    ensures FirstNul(a, i) == FirstNul(b, i) && CString(a, i) == CString(b, i)
    decreases |a| - i
  {
    if a[i] != NUL { SameString(a, b, i + 1); }
  }

  /** A reader and its descriptor at a moment: the events and the bytes to come with those held,
      whether the buffer was left, the reads that had filled their room, where the cursor is
      without the newlines skipped, and whether a whole buffer is coming. */
  datatype Moment = Moment(events: seq<ReadEvent>, strayed: bool, filled: nat, total: nat, offset: int, flooded: bool)

  /** What is left when the newlines in front are skipped. */
  function SkipEols(s: string): string
  {
    if s != "" && IsEol(s[0]) then SkipEols(s[1..]) else s
  }

  lemma {:induction false} SkipsRun(run: string, s: string)
    requires AllEols(run) && (s != "" ==> !IsEol(s[0]))
    ensures SkipEols(run + s) == s
  {
    if run == "" {
      assert run + s == s;
    } else {
      assert (run + s)[1..] == run[1..] + s;
      SkipsRun(run[1..], s);
    }
  }

  /** A string in a buffer that has not changed behind its start, and when it is empty. */
  lemma StringAfter(was: seq<char>, now: seq<char>, i: nat, same: bool)
    requires i < |was| == |now| && Last(was) == Last(now) == NUL
    requires same ==> forall k :: i <= k < |now| ==> was[k] == now[k]
    ensures same ==> CString(was, i) == CString(now, i)
    ensures CString(now, i) == "" <==> now[i] == NUL
  {
    if same { SameString(was, now, i); }
  }

  /** The bytes stored, and those held in front of them. */
  lemma StoredBehind(was: seq<char>, now: seq<char>, from: nat, at: nat, data: string)
    requires from <= at && at + |data| < |was| == |now| && NulFree(data)
    requires forall k :: 0 <= k < |data| ==> now[at + k] == data[k]
    requires forall k :: from <= k < at ==> now[k] == was[k]
    ensures now[from..at + |data|] == was[from..at] + data
    ensures forall k :: at <= k < at + |data| ==> now[k] != NUL
  {
    forall k | at <= k < at + |data| ensures now[k] == data[k - at] && now[k] != NUL {
      assert now[at + (k - at)] == data[k - at];
    }
    assert now[from..at + |data|] == was[from..at] + data;
  }

  lemma OnlyEols(s: string)
    requires AllEols(s)
    ensures SkipEols(s) == ""
  {
    SkipsRun(s, "");
    assert s + "" == s;
  }

  /** What a NUL over the end of a line does to the bytes around it. */
  lemma LineEnded(was: seq<char>, from: nat, p: nat, end: nat)
    requires from <= p <= end < |was| && was[end] == NUL && forall i :: from <= i < end ==> was[i] != NUL
    ensures var now := was[p := NUL];
            StringAt(now, from, was[from..p]) &&
            (p < end ==> was[from..end] == was[from..p] + [was[p]] + now[p + 1..end])
  {
    var now := was[p := NUL];
    assert now[from..p] == was[from..p];
    assert NUL !in was[from..p];
  }

  class Reader {
    /** The original has MAX_AT_RESPONSE cells only.  The two behind them are there so that what
        goes on behind the buffer can be told; nothing touches them unless `strayed` is set. */
    const buf: array<char>
    const port: Port
    var cur: nat
    /** The first NUL at or after the cursor. */
    ghost var end: nat
    /** A cell behind the original's buffer has been read or written. */
    ghost var strayed: bool

    ghost predicate Valid()
      reads this, buf, port
    {
      buf.Length == MAX_AT_RESPONSE + 2 &&
      buf[MAX_AT_RESPONSE] == NUL && buf[MAX_AT_RESPONSE + 1] == NUL &&
      cur <= end <= MAX_AT_RESPONSE + 1 && (cur <= MAX_AT_RESPONSE ==> end <= MAX_AT_RESPONSE) &&
      buf[end] == NUL && (forall i :: cur <= i < end ==> buf[i] != NUL) &&
      (strayed || buf[MAX_AT_RESPONSE - 1] == NUL) &&
      Readable(port.events)
    }

    /** A cell that may be looked at: one of the original's, unless that has been left already. */
    function Cell(i: nat): char
      requires i < buf.Length && (i < MAX_AT_RESPONSE || strayed)
      reads this`strayed, buf
    {
      buf[i]
    }

    /** The bytes `readline` still finds in the buffer. */
    ghost function Pending(): string
      requires Valid()
      reads this, buf, port
    {
      buf[cur..end]
    }

    ghost function Stream(): string
      requires Valid()
      reads this, buf, port
    {
      Pending() + Bytes(port.events)
    }

    constructor (port: Port)
      requires Readable(port.events)
      ensures Valid() && fresh(buf) && this.port == port && port.events == old(port.events)
      ensures Stream() == Bytes(port.events) && cur == 0 && !strayed && port.filled == old(port.filled)
      ensures forall i :: 0 <= i < buf.Length ==> buf[i] == NUL
    {
      this.port := port;
      buf := new char[MAX_AT_RESPONSE + 2](_ => NUL);
      cur, end, strayed := 0, 0, false;
    }

    method SkipNewlines() returns (ghost skipped: string)
      requires Valid() && InBuffer()
      modifies this`cur
      ensures Valid() && AllEols(skipped) && old(Pending()) == skipped + Pending()
      ensures cur == old(cur) + |skipped|
      ensures Pending() != "" ==> !IsEol(Pending()[0])
      ensures forall k :: old(cur) <= k < cur ==> IsEol(buf[k])
    {
      ghost var from := cur;
      while Cell(cur) == '\r' || Cell(cur) == '\n'
        invariant from <= cur <= end && Valid() && InBuffer()
        invariant forall i :: from <= i < cur ==> IsEol(buf[i])
        decreases end - cur
      {
        cur := cur + 1;
      }
      skipped := buf[from..cur];
    }

    /** The line at the cursor ends at `pEol`. */
    ghost predicate Found(pEol: nat)
      requires Valid()
      reads this, buf, port
    {
      if Pending() == PROMPT then pEol == end
      else cur < pEol < end && IsEol(buf[pEol]) && NoEols(buf[cur..pEol])
    }

    /** The line at the cursor is not complete. */
    ghost predicate Partial()
      requires Valid()
      reads this, buf, port
    {
      Pending() != PROMPT && NoEols(Pending())
    }

    /** `findNextEOL`: the end of the line at the cursor, or None if it is not complete. */
    method FindNextEol() returns (p: Option<nat>)
      requires Valid() && cur <= MAX_AT_RESPONSE && InBuffer()
      requires Pending() != "" ==> !IsEol(Pending()[0])
      ensures if p.Some? then Found(p.value) else Partial()
    {
      assert cur < end ==> buf[cur] == Pending()[0];
      assert end == cur + 2 ==> buf[cur + 1] == Pending()[1];
      if Cell(cur) == '>' && Cell(cur + 1) == ' ' && Cell(cur + 2) == NUL {
        assert end == cur + 2;
        assert Pending() == PROMPT;
        return Some(cur + 2);
      }
      var i := cur;
      while Cell(i) != NUL && Cell(i) != '\r' && Cell(i) != '\n'
        invariant cur <= i <= end && (i < MAX_AT_RESPONSE || strayed)
        invariant NoEols(buf[cur..i])
        decreases end - i
      {
        i := i + 1;
      }
      p := if Cell(i) == NUL then None else Some(i);
    }

    /** `memmove(s_ATBuffer, s_ATBufferCur, strlen(s_ATBufferCur) + 1)`. */
    method MoveDown() returns (len: nat)
      requires Valid() && cur <= MAX_AT_RESPONSE && InBuffer()
      modifies this`cur, this`end, buf
      ensures Valid() && cur == 0 && end == len && len <= old(end) && Pending() == old(Pending())
      ensures forall k :: len < k < buf.Length ==> buf[k] == old(buf[k])
    {
      len := StrLen();
      MoveBytes(len);
      cur, end := 0, len;
    }

    /** `strlen` at the cursor. */
    method StrLen() returns (len: nat)
      requires Valid() && InBuffer()
      ensures cur + len == end
    {
      len := 0;
      while Cell(cur + len) != NUL
        invariant len <= end - cur
        decreases end - cur - len
      {
        len := len + 1;
      }
    }

    /** The loop of `memmove`; the cursor is still where it was. */
    method MoveBytes(len: nat)
      requires Valid() && InBuffer() && cur + len == end <= MAX_AT_RESPONSE
      modifies buf
      ensures buf[..len] == old(Pending()) && buf[len] == NUL && forall k :: 0 <= k < len ==> buf[k] != NUL
      ensures forall k :: len < k < buf.Length ==> buf[k] == old(buf[k])
    {
      ghost var was := buf[..];
      for i := 0 to len + 1
        invariant forall k :: 0 <= k < i ==> buf[k] == was[cur + k]
        invariant forall k :: i <= k < buf.Length ==> buf[k] == was[k]
      {
        buf[i] := Cell(cur + i);
      }
      assert was[cur..end] == buf[..len];
    }

    /** The bytes a read stores, and the terminator behind them. */
    method Store(at: nat, data: string)
      requires Valid() && at == end && at + |data| <= MAX_AT_RESPONSE && NulFree(data)
      modifies this`end, this`strayed, buf
      ensures Valid() && end == at + |data| && Pending() == old(Pending()) + data
      ensures strayed <==> old(strayed) || end == MAX_AT_RESPONSE
      ensures forall k :: 0 <= k < at || end < k < buf.Length ==> buf[k] == old(buf[k])
    {
      ghost var was := buf[..];
      StoreBytes(at, data);
      if at + |data| == MAX_AT_RESPONSE {
        strayed := true;
      }
      buf[at + |data|] := NUL;
      StoredBehind(was, buf[..], cur, at, data);
      end := at + |data|;
    }

    /** The bytes alone. */
    method StoreBytes(at: nat, data: string)
      requires buf.Length == MAX_AT_RESPONSE + 2 && at + |data| <= MAX_AT_RESPONSE
      modifies buf
      ensures forall k :: 0 <= k < |data| ==> buf[at + k] == data[k]
      ensures forall k :: 0 <= k < buf.Length && !(at <= k < at + |data|) ==> buf[k] == old(buf[k])
    {
      ghost var was := buf[..];
      for i := 0 to |data|
        invariant forall k :: 0 <= k < i ==> buf[at + k] == data[k]
        invariant forall k :: 0 <= k < buf.Length && !(at <= k < at + i) ==> buf[k] == was[k]
      {
        assert at + i < MAX_AT_RESPONSE;
        buf[at + i] := data[i];
      }
    }

    /** All that lies in front of the cursor are newlines. */
    ghost predicate Skipped()
      requires Valid()
      reads this, buf, port
    {
      forall k :: 0 <= k < cur ==> IsEol(buf[k])
    }

    /** A ditched buffer was full, and what a read has not stored over since is still there. */
    ghost predicate Stale()
      requires Valid()
      reads this, buf, port
    {
      forall k :: end < k < MAX_AT_RESPONSE ==> buf[k] != NUL
    }

    /** The cursor is at a cell that may be looked at. */
    ghost predicate InBuffer()
      reads this`cur, this`strayed
    {
      cur < MAX_AT_RESPONSE || strayed
    }

    /** Since a moment with these values the buffer has been left exactly if a read has filled all
        the room it was given. */
    ghost predicate Tracked(strayedWas: bool, filledWas: nat)
      reads this`strayed, port`filled
    {
      filledWas <= port.filled && (strayed <==> strayedWas || filledWas < port.filled)
    }

    /** Stores what a read returned, skips newlines and looks for the end of a line. */
    method Take(at: nat, data: string) returns (pEol: Option<nat>, ghost skipped: string)
      requires Valid() && at == end && at + |data| <= MAX_AT_RESPONSE && NulFree(data)
      requires InBuffer()
      modifies this, buf
      ensures strayed <==> old(strayed) || end == MAX_AT_RESPONSE
      ensures Valid() && end == at + |data| && cur == old(cur) + |skipped| && AllEols(skipped)
      ensures old(Pending()) + data == skipped + Pending()
      ensures if pEol.Some? then Found(pEol.value) else Partial()
      ensures forall k :: end < k < buf.Length ==> buf[k] == old(buf[k])
      ensures old(Skipped()) ==> Skipped()
    {
      Store(at, data);
      skipped := SkipNewlines();
      pEol := FindNextEol();
    }

    /** One pass of the read loop: ditch a full buffer, read, skip newlines, look again. */
    method ReadMore(pRead: nat, ghost whole: string, ghost ds: seq<Ditch>, ghost newlines: string)
      returns (ok: bool, pRead': nat, pEol: Option<nat>, ghost ds': seq<Ditch>, ghost newlines': string)
      requires Valid() && pRead == end <= MAX_AT_RESPONSE && cur <= |newlines| && Partial() && InBuffer()
      requires Accounted(whole, ds, newlines, Stream())
      requires AllOverflowed(ds) && AllEols(newlines) && Skipped() && (ds != [] ==> Stale())
      modifies this, buf, port
      ensures Valid() && cur <= |newlines'| && pRead' == end <= MAX_AT_RESPONSE && InBuffer()
      ensures Tracked(old(strayed), old(port.filled))
      ensures old(end) == 0 && FrontFills(old(port.events), MAX_AT_RESPONSE) ==> strayed
      ensures Skipped() && (ds' != [] ==> Stale())
      ensures Accounted(whole, ds', newlines', Stream())
      ensures AllOverflowed(ds') && AllEols(newlines') && ds <= ds'
      ensures ok ==> |Bytes(port.events)| < |Bytes(old(port.events))|
      ensures if pEol.Some? then ok && Found(pEol.value) else Partial()
      ensures !ok ==> port.events == [] || Failed in old(port.events)
      ensures Failed in port.events ==> Failed in old(port.events)
      ensures ds' == [] ==> cur - old(cur) == |newlines'| - |newlines|
      ensures ds' == [] ==> old(end) <= end && forall k :: end < k < buf.Length ==> buf[k] == old(buf[k])
      ensures old(end) + |Bytes(old(port.events))| < MAX_AT_RESPONSE ==>
                Later(old(port.events), port.events) && port.filled == old(port.filled) &&
                end + |Bytes(port.events)| == old(end) + |Bytes(old(port.events))|
    {
      ds', newlines', pEol := ds, newlines, None;
      pRead' := pRead;
      if 0 == MAX_AT_RESPONSE - pRead' {
        ds' := DitchBuffer(whole, ds, newlines);
        newlines' := "";
        pRead' := 0;
      }
      ghost var held, before, from := Pending(), Bytes(port.events), cur;
      var r := ReadRetrying(port, MAX_AT_RESPONSE - pRead');
      ok := r.Got?;
      if !ok {
        assert Bytes(port.events) == before;
        return;
      }
      ghost var skipped;
      pEol, skipped := Take(pRead', r.data);
      pRead' := pRead' + |r.data|;
      AccountTake(whole, ds', newlines', held, r.data, Bytes(port.events), skipped, Pending());
      newlines' := newlines' + skipped;
    }

    /** The overflow branch. */
    method DitchBuffer(ghost whole: string, ghost ds: seq<Ditch>, ghost newlines: string)
      returns (ghost ds': seq<Ditch>)
      requires Valid() && end == MAX_AT_RESPONSE && cur <= |newlines| && Partial()
      requires Accounted(whole, ds, newlines, Stream()) && AllOverflowed(ds) && AllEols(newlines) && Skipped()
      modifies this`cur, this`end, buf
      ensures Valid() && cur == end == 0 && Pending() == "" && ds' != [] && ds <= ds' && Stale()
      ensures Accounted(whole, ds', "", Stream()) && AllOverflowed(ds')
    {
      ds' := ds + [Ditch(newlines, Pending())];
      AccountDitch(whole, ds, newlines, Pending(), Bytes(port.events));
      cur, end := 0, 0;
      buf[0] := NUL;
      assert "" + Bytes(port.events) == Bytes(port.events);
    }

    /** What is behind the bytes held: the cells as they were, or a ditched buffer. */
    ghost predicate Behind(was: seq<char>, ditched: bool)
      requires Valid()
      reads this, buf, port
    {
      |was| == buf.Length && Last(was) == NUL &&
      if ditched then Stale() else forall k :: end < k < buf.Length ==> buf[k] == was[k]
    }

    /** What has become of the reader since a moment: how it has left the buffer, what is behind
        the bytes held, how far the newlines skipped have taken the cursor, and that its reads
        have taken whole events if all that was to come fits the buffer. */
    ghost predicate Since(m: Moment, was: seq<char>, ds: seq<Ditch>, newlines: string)
      requires Valid()
      reads this, buf, port
    {
      Tracked(m.strayed, m.filled) && Behind(was, ds != []) && (ds == [] ==> cur == m.offset + |newlines|) &&
      (Failed in port.events ==> Failed in m.events) &&
      (m.total < MAX_AT_RESPONSE ==>
         Later(m.events, port.events) && port.filled == m.filled && end + |Bytes(port.events)| == m.total) &&
      (m.flooded ==> strayed || (end == 0 && FrontFills(port.events, MAX_AT_RESPONSE)))
    }

    /** One pass, seen from a moment before. */
    method ReadAgain(pRead: nat, ghost whole: string, ghost ds: seq<Ditch>, ghost newlines: string,
                     ghost m: Moment, ghost was: seq<char>)
      returns (ok: bool, pRead': nat, pEol: Option<nat>, ghost ds': seq<Ditch>, ghost newlines': string)
      requires Valid() && pRead == end <= MAX_AT_RESPONSE && cur <= |newlines| && Partial() && InBuffer()
      requires Accounted(whole, ds, newlines, Stream()) && Since(m, was, ds, newlines)
      requires AllOverflowed(ds) && AllEols(newlines) && Skipped()
      modifies this, buf, port
      ensures Valid() && cur <= |newlines'| && pRead' == end <= MAX_AT_RESPONSE && InBuffer() && Skipped()
      ensures Accounted(whole, ds', newlines', Stream()) && Since(m, was, ds', newlines')
      ensures AllOverflowed(ds') && AllEols(newlines')
      ensures ok ==> |Bytes(port.events)| < |Bytes(old(port.events))|
      ensures m.flooded ==> strayed
      ensures if pEol.Some? then ok && Found(pEol.value) else Partial()
      ensures !ok ==> port.events == [] || Failed in old(port.events)
    {
      ghost var mid := port.events;
      ok, pRead', pEol, ds', newlines' := ReadMore(pRead, whole, ds, newlines);
      if m.total < MAX_AT_RESPONSE { LaterStill(m.events, mid, port.events); }
    }

    /** The read loop: until the line at the cursor is complete or the descriptor ends. */
    method ReadUntilEol(pRead: nat, ghost whole: string, ghost newlines: string, ghost m: Moment, ghost was: seq<char>)
      returns (pEol: Option<nat>, ghost ds: seq<Ditch>, ghost newlines': string)
      requires Valid() && pRead == end <= MAX_AT_RESPONSE && cur <= |newlines| && Partial() && InBuffer()
      requires Accounted(whole, [], newlines, Stream()) && Since(m, was, [], newlines)
      requires AllEols(newlines) && Skipped()
      modifies this, buf, port
      ensures Valid() && end <= MAX_AT_RESPONSE && InBuffer() && Skipped()
      ensures Accounted(whole, ds, newlines', Stream()) && Since(m, was, ds, newlines')
      ensures AllOverflowed(ds) && AllEols(newlines')
      ensures m.flooded ==> strayed
      ensures if pEol.Some? then Found(pEol.value) && |Bytes(port.events)| < |Bytes(old(port.events))|
              else Partial() && (port.events == [] || Failed in m.events)
    {
      var p := pRead;
      pEol, ds, newlines' := None, [], newlines;
      while pEol.None?
        invariant Valid() && p == end <= MAX_AT_RESPONSE && cur <= |newlines'| && InBuffer() && Skipped()
        invariant Accounted(whole, ds, newlines', Stream()) && Since(m, was, ds, newlines')
        invariant AllOverflowed(ds) && AllEols(newlines')
        invariant pEol.Some? && m.flooded ==> strayed
        invariant if pEol.Some? then Found(pEol.value) && |Bytes(port.events)| < |Bytes(old(port.events))|
                  else Partial() && |Bytes(port.events)| <= |Bytes(old(port.events))|
        decreases pEol.None?, |Bytes(port.events)|
      {
        var ok;
        ok, p, pEol, ds, newlines' := ReadAgain(p, whole, ds, newlines', m, was);
        if !ok {
          return;
        }
      }
    }

    /** What is left from the last read: nothing, a complete line, or a partial one, which
        moves to the front of the buffer. */
    method Resume() returns (pRead: nat, pEol: Option<nat>, ghost newlines: string)
      requires Valid()
      modifies this`cur, this`end, this`strayed, buf
      ensures Valid() && end <= MAX_AT_RESPONSE && AllEols(newlines) && InBuffer()
      ensures strayed <==> old(strayed) || old(cur) >= MAX_AT_RESPONSE
      ensures old(Pending()) == newlines + Pending()
      ensures Pending() == SkipEols(old(Pending()))
      ensures if pEol.Some? then Found(pEol.value) && cur >= old(cur)
              else Partial() && pRead == end && cur == 0
      ensures forall k :: end < k < buf.Length ==> buf[k] == old(buf[k])
    {
      pRead, pEol, newlines := 0, None, "";
      if cur >= MAX_AT_RESPONSE {
        strayed := true;
      }
      if Cell(cur) == NUL {
        cur, end := 0, 0;
        buf[0] := NUL;
      } else {
        newlines := SkipNewlines();
        SkipsRun(newlines, Pending());
        pEol := FindNextEol();
        if pEol.None? {
          pRead := MoveDown();
        }
      }
    }

    /** The line starts here, NUL-terminated, and the cursor is behind the terminator, two cells
        behind it after a prompt. */
    ghost predicate Placed(line: nat, ending: Ending)
      reads this, buf
    {
      match ending
      case Terminated(text, _) => StringAt(buf[..], line, text) && cur == line + |text| + 1
      case Prompted => StringAt(buf[..], line, PROMPT) && cur == line + 3
      case Closed => false
    }

    /** Ends the line at `pEol` and moves the cursor past it. */
    method EndLine(pEol: nat) returns (line: nat, ghost ending: Ending)
      requires Valid() && Found(pEol) && end <= MAX_AT_RESPONSE && InBuffer()
      modifies this`cur, this`end, buf
      ensures Valid() && cur == pEol + 1 && line == old(cur) && Placed(line, ending)
      ensures match ending
              case Terminated(text, eol) =>
                text != "" && NoEols(text) && IsEol(eol) && |text| < MAX_AT_RESPONSE &&
                old(Pending()) == text + [eol] + Pending() && end == old(end)
              case Prompted =>
                old(Pending()) == PROMPT && Pending() == CString(old(buf[..]), cur) && pEol == old(end)
              case Closed => false
      ensures old(Pending()) == PROMPT ==> ending.Prompted?
      ensures forall k :: 0 <= k < buf.Length && k != pEol ==> buf[k] == old(buf[k])
    {
      line := cur;
      ghost var was := buf[..];
      ending := if Pending() == PROMPT then Prompted else Terminated(buf[cur..pEol], buf[pEol]);
      assert pEol < MAX_AT_RESPONSE || strayed;
      buf[pEol] := NUL;
      cur := pEol + 1;
      assert buf[..] == was[pEol := NUL];
      if ending.Prompted? {
        end := FirstNul(buf[..], cur);
        assert buf[..] == was;
      }
      LineEnded(was, line, pEol, old(end));
    }

    /** What a prompt leaves pending: the string that starts in the cell at the cursor. */
    ghost predicate LeavesStale(was: seq<char>, g: Reading)
      requires Valid() && |was| == buf.Length && Last(was) == NUL
      reads this, buf, port
    {
      g.ending.Prompted? ==>
        g.stale == Pending() && (g.ds == [] ==> g.stale == CString(was, cur)) &&
        (g.stale == "" <==> if g.ds == [] then was[cur] == NUL else cur >= MAX_AT_RESPONSE)
    }

    /** Delivers the line found. */
    method Deliver(pEol: nat, ghost whole: string, ghost ds: seq<Ditch>, ghost newlines: string, ghost was: seq<char>)
      returns (line: nat, ghost g: Reading)
      requires Valid() && Found(pEol) && end <= MAX_AT_RESPONSE && InBuffer() && Behind(was, ds != [])
      requires Accounted(whole, ds, newlines, Stream()) && AllOverflowed(ds) && AllEols(newlines)
      modifies this`cur, this`end, buf
      ensures Valid() && cur == pEol + 1 && line == old(cur) && Placed(line, g.ending)
      ensures g.ending.Prompted? || InBuffer()
      ensures g.ds == ds && g.newlines == newlines && WellRead(g) && Took(whole, g, Stream())
      ensures LeavesStale(was, g) && (old(Pending()) == PROMPT ==> g.ending.Prompted?)
      ensures ds == [] ==> forall k :: end < k < buf.Length ==> buf[k] == was[k]
      ensures old(Skipped()) ==> forall k :: 0 <= k < line ==> IsEol(buf[k])
    {
      ghost var mid, before, ending := buf[..], Pending(), Closed;
      line, ending := EndLine(pEol);
      g := LineReading(whole, ds, newlines, ending, before, Pending(), Bytes(port.events));
      if ending.Prompted? { StringAfter(was, mid, cur, ds == []); }
    }

    /** The line at the cursor, read if it is not there already. */
    method FindLine() returns (pEol: Option<nat>, ghost ds: seq<Ditch>, ghost newlines: string)
      requires Valid()
      modifies this, buf, port
      ensures Valid() && end <= MAX_AT_RESPONSE && InBuffer() && AllOverflowed(ds) && AllEols(newlines)
      ensures Tracked(old(strayed) || old(cur) >= MAX_AT_RESPONSE, old(port.filled))
      ensures old(Pending()) == "" && FrontFills(old(port.events), MAX_AT_RESPONSE) ==> strayed
      ensures Accounted(old(Stream()), ds, newlines, Stream())
      ensures if pEol.Some? then Found(pEol.value) else Partial() && (port.events == [] || Failed in old(port.events))
      ensures Failed in port.events ==> Failed in old(port.events)
      ensures pEol.Some? ==> |Bytes(port.events)| < |Bytes(old(port.events))|
                             || (|Bytes(port.events)| == |Bytes(old(port.events))| && cur >= old(cur))
      ensures if ds == [] then forall k :: end < k < buf.Length ==> buf[k] == old(buf[k]) else Stale()
      ensures pEol.Some? && ds == [] && SkipEols(old(Pending())) == "" ==>
                cur == |newlines| - |old(Pending())| && |Bytes(port.events)| < |Bytes(old(port.events))| && Skipped()
      ensures |old(Stream())| < MAX_AT_RESPONSE ==>
                Later(old(port.events), port.events) && port.filled == old(port.filled)
      ensures SkipEols(old(Pending())) == PROMPT ==> pEol.Some? && Pending() == PROMPT
    {
      ghost var whole, was, pending := Stream(), buf[..], Pending();
      var pRead;
      ds := [];
      pRead, pEol, newlines := Resume();
      assert Accounted(whole, ds, newlines, Stream());
      if pEol.Some? {
        return;
      }
      assert SkipEols(pending) == "" ==> newlines + "" == newlines == pending;
      assert SkipEols(pending) != PROMPT;
      assert |whole| == |newlines| + end + |Bytes(port.events)|;
      pEol, ds, newlines := ReadOn(pRead, whole, newlines, was);
    }

    /** The line at the front of the buffer is not complete. */
    method ReadOn(pRead: nat, ghost whole: string, ghost newlines: string, ghost was: seq<char>)
      returns (pEol: Option<nat>, ghost ds: seq<Ditch>, ghost newlines': string)
      requires Valid() && pRead == end <= MAX_AT_RESPONSE && cur == 0 && Partial() && Behind(was, false)
      requires Accounted(whole, [], newlines, Stream()) && AllEols(newlines)
      modifies this, buf, port
      ensures Valid() && end <= MAX_AT_RESPONSE && InBuffer() && Skipped() && Behind(was, ds != [])
      ensures Accounted(whole, ds, newlines', Stream()) && AllOverflowed(ds) && AllEols(newlines')
      ensures Tracked(old(strayed), old(port.filled)) && (ds == [] ==> cur == |newlines'| - |newlines|)
      ensures old(end) == 0 && FrontFills(old(port.events), MAX_AT_RESPONSE) ==> strayed
      ensures old(end) + |Bytes(old(port.events))| < MAX_AT_RESPONSE ==>
                Later(old(port.events), port.events) && port.filled == old(port.filled)
      ensures Failed in port.events ==> Failed in old(port.events)
      ensures if pEol.Some? then Found(pEol.value) && |Bytes(port.events)| < |Bytes(old(port.events))|
              else Partial() && (port.events == [] || Failed in old(port.events))
    {
      ghost var m := Moment(port.events, strayed, port.filled, end + |Bytes(port.events)|, -|newlines|,
                            end == 0 && FrontFills(port.events, MAX_AT_RESPONSE));
      pEol, ds, newlines' := ReadUntilEol(pRead, whole, newlines, m, was);
    }

    /** Returns the next line as a pointer into the buffer, None when the descriptor is closed
        or fails. */
    method ReadLine() returns (line: Option<nat>, ghost g: Reading)
      requires Valid()
      modifies this, buf, port
      ensures Valid() && WellRead(g) && Took(old(Stream()), g, Stream())
      ensures match line
              case Some(at) => Placed(at, g.ending)
              case None => g.ending.Closed? && Partial() && (port.events == [] || Failed in old(port.events))
      ensures LeavesStale(old(buf[..]), g) && (g.ending.Prompted? || InBuffer())
      ensures Tracked(old(strayed) || old(cur) >= MAX_AT_RESPONSE, old(port.filled))
      ensures old(Pending()) == "" && FrontFills(old(port.events), MAX_AT_RESPONSE) ==> strayed
      ensures SkipEols(old(Pending())) == PROMPT ==> g.ending.Prompted?
      ensures g.ds == [] ==> forall k :: end < k < buf.Length ==> buf[k] == old(buf[k])
      ensures line.Some? && g.ds == [] && SkipEols(old(Pending())) == "" ==>
                line.value == |g.newlines| - |old(Pending())| && |Bytes(port.events)| < |Bytes(old(port.events))| &&
                forall k :: 0 <= k < line.value ==> IsEol(buf[k])
      ensures |old(Stream())| < MAX_AT_RESPONSE ==>
                Later(old(port.events), port.events) && port.filled == old(port.filled)
      ensures Failed in port.events ==> Failed in old(port.events)
      ensures line.Some? ==> |Bytes(port.events)| < |Bytes(old(port.events))|
                             || (|Bytes(port.events)| == |Bytes(old(port.events))| && cur > old(cur))
    {
      ghost var whole, was := Stream(), buf[..];
      ghost var ds, newlines;
      var pEol;
      pEol, ds, newlines := FindLine();
      line, g := Finish(pEol, whole, ds, newlines, was);
    }

    /** The line found, or NULL. */
    method Finish(pEol: Option<nat>, ghost whole: string, ghost ds: seq<Ditch>, ghost newlines: string,
                  ghost was: seq<char>)
      returns (line: Option<nat>, ghost g: Reading)
      requires Valid() && end <= MAX_AT_RESPONSE && InBuffer() && Behind(was, ds != [])
      requires if pEol.Some? then Found(pEol.value) else Partial()
      requires Accounted(whole, ds, newlines, Stream()) && AllOverflowed(ds) && AllEols(newlines)
      modifies this`cur, this`end, buf
      ensures Valid() && g.ds == ds && g.newlines == newlines && WellRead(g) && Took(whole, g, Stream())
      ensures match pEol
              case Some(p) => line == Some(old(cur)) && Placed(line.value, g.ending) && cur == p + 1 > old(cur)
              case None => line.None? && g.ending.Closed? && Partial()
      ensures LeavesStale(was, g) && (g.ending.Prompted? || InBuffer())
      ensures pEol.Some? && old(Pending()) == PROMPT ==> g.ending.Prompted?
      ensures ds == [] ==> forall k :: end < k < buf.Length ==> buf[k] == was[k]
      ensures line.Some? && old(Skipped()) ==> forall k :: 0 <= k < line.value ==> IsEol(buf[k])
    {
      if pEol.None? {
        g := ClosedReading(whole, ds, newlines, Stream());
        return None, g;
      }
      var start;
      start, g := Deliver(pEol.value, whole, ds, newlines, was);
      line := Some(start);
    }
  }
}
