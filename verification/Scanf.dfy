/** `removeConsecutiveCommas` and `at_tok_scanf`. */
module Scanf {
  import opened CText
  import opened Numbers
  import opened Scanner
  import opened Formats
  import Tok

  const TMP_SIZE: nat := 256
  const LINE_SIZE: nat := 1024

  /** The in-place loop: `j` never overtakes `i`, so what is still to be read is intact. */
  method RemoveConsecutiveCommas(str: string) returns (r: string)
    requires NulFree(str) && |str| < TMP_SIZE
    ensures r == Tok.Collapse(str)
  {
    var length := |str|;
    var tmp := new char[TMP_SIZE](_ => NUL);
    StrNCpy(tmp, str, TMP_SIZE);
    var i, j := 0, 0;
    while i < length
      invariant 0 <= j <= i <= length
      invariant forall k :: i <= k < length ==> tmp[k] == str[k]
      invariant tmp[length] == NUL
      invariant tmp[..j] == Tok.KeptTo(str, i)
      decreases length - i
    {
      assert tmp[i] == str[i] && tmp[i + 1] == if i + 1 < length then str[i + 1] else NUL;
      if tmp[i] == ',' && tmp[i + 1] == ',' {
        i := i + 1;
        continue;
      }
      tmp[j] := tmp[i];
      assert tmp[..j + 1] == Tok.KeptTo(str, i) + [str[i]];
      j := j + 1;
      i := i + 1;
    }
    tmp[j] := NUL;
    Tok.CollapseFromLeft(str, length);
    r := tmp[..j];
  }

  /** What a variable holds after the scan: strings are pointers into the line buffer. */
  datatype Slot = Untouched | IntOut(n: int) | BoolOut(b: int) | StrOut(p: nat)

  ghost predicate Holds(b: seq<char>, slot: Slot, spec: Tok.Slot)
  {
    match slot
    case Untouched => spec.Untouched?
    case IntOut(n) => spec == Tok.IntOut(n)
    case BoolOut(n) => spec == Tok.BoolOut(n)
    case StrOut(p) => spec.StrOut? && StringAt(b, p, spec.text)
  }

  /** And a string lies in front of the limit. */
  ghost predicate HoldsBefore(b: seq<char>, slot: Slot, spec: Tok.Slot, limit: nat)
  {
    Holds(b, slot, spec) && (slot.StrOut? ==> slot.p + |spec.text| < limit)
  }

  ghost predicate HoldsAt(b: seq<char>, slots: seq<Slot>, specs: seq<Tok.Slot>, limit: nat, i: nat)
    requires |slots| == |specs| && i < |slots|
  {
    HoldsBefore(b, slots[i], specs[i], limit)
  }

  ghost predicate AllHold(b: seq<char>, slots: seq<Slot>, specs: seq<Tok.Slot>, limit: nat)
  {
    |slots| == |specs| &&
    forall i {:trigger HoldsAt(b, slots, specs, limit, i)} :: 0 <= i < |slots| ==> HoldsAt(b, slots, specs, limit, i)
  }

  /** Strings before the cursor stay as they are when only later bytes change. */
  lemma HoldsFramed(b: seq<char>, b': seq<char>, slots: seq<Slot>, specs: seq<Tok.Slot>, limit: nat, limit': nat)
    requires AllHold(b, slots, specs, limit) && limit <= limit' && |b| == |b'|
    requires forall k :: 0 <= k < limit && k < |b| ==> b'[k] == b[k]
    ensures AllHold(b', slots, specs, limit')
  {
    forall i | 0 <= i < |slots| ensures HoldsAt(b', slots, specs, limit', i) {
      assert HoldsAt(b, slots, specs, limit, i);
      if slots[i].StrOut? {
        var p, n := slots[i].p, |specs[i].text|;
        assert b'[p..p + n] == b[p..p + n];
      }
    }
  }

  /** One more. */
  lemma HoldsSnoc(b: seq<char>, slots: seq<Slot>, specs: seq<Tok.Slot>, limit: nat, slot: Slot, spec: Tok.Slot)
    requires AllHold(b, slots, specs, limit) && HoldsBefore(b, slot, spec, limit)
    ensures AllHold(b, slots + [slot], specs + [spec], limit)
  {
    forall i | 0 <= i <= |slots| ensures HoldsAt(b, slots + [slot], specs + [spec], limit, i) {
      assert i < |slots| ==> HoldsAt(b, slots, specs, limit, i);
    }
  }

  lemma HoldsMore(b: seq<char>, b': seq<char>, slots: seq<Slot>, specs: seq<Tok.Slot>, limit: nat, limit': nat,
                  slot: Slot, spec: Tok.Slot)
    requires AllHold(b, slots, specs, limit) && limit <= limit' && |b| == |b'|
    requires forall k :: 0 <= k < limit && k < |b| ==> b'[k] == b[k]
    requires HoldsBefore(b', slot, spec, limit')
    ensures AllHold(b', slots + [slot], specs + [spec], limit')
  {
    HoldsFramed(b, b', slots, specs, limit, limit');
    HoldsSnoc(b', slots, specs, limit', slot, spec);
  }

  /** The n-th directive has been applied to the n-th token, up to the first pair that does not
      convert; n is the number of those that do. */
  ghost predicate Scanned(b: seq<char>, body: string, fmt: string, n: nat, slots: seq<Slot>)
  {
    var ds, ts := Directives(fmt), Tok.Tokens(body);
    n == Tok.Converted(ds, ts) && AllHold(b, slots, Tok.Stored(ds, ts), LINE_SIZE)
  }

  class AtTok {
    const sLine: array<char>

    ghost predicate Valid()
      reads this, sLine
    {
      sLine.Length == LINE_SIZE && sLine[LINE_SIZE - 1] == NUL
    }

    constructor ()
      ensures Valid() && fresh(sLine)
    {
      sLine := new char[LINE_SIZE](_ => NUL);
    }

    /** One directive on a cursor that has more: whether the loop goes on, and the slot. */
    method Directive(d: char, c: Cursor) returns (ok: bool, slot: Slot)
      requires c.Valid() && c.Rest().Some? && c.Rest().value != "" && (d == NUL ==> !Tok.IsDash(c.Rest().value))
      modifies c`cur, c.buf
      ensures c.Valid() && old(c.cur).value <= c.Limit()
      ensures var rest := old(c.Rest()).value;
              var t := Tok.Token(Tok.NextTok(rest).0, Tok.IsDash(rest));
              ok == Tok.Convert(d, t).0 && HoldsBefore(c.buf[..], slot, Tok.Convert(d, t).1, c.Limit()) &&
              (ok ==> c.Rest().GetOr("") == Tok.Rest(rest))
      ensures forall k :: 0 <= k < c.buf.Length && (k < old(c.cur).value || k > c.end) ==> c.buf[k] == old(c.buf[k])
    {
      ghost var rest := c.Rest().value;
      var p := c.cur.value;
      var dash := c.buf[p] == '-' && c.buf[p + 1] == ',';
      assert dash == Tok.IsDash(rest) by {
        assert rest[0] == c.buf[p];
        assert |rest| > 1 ==> rest[1] == c.buf[p + 1];
      }
      if dash {
        slot := SkipDash(d, c);
        ok := true;
      } else {
        ok, slot := Conversion(d, c);
      }
    }

    /** The place holder of a missing value. */
    method SkipDash(d: char, c: Cursor) returns (slot: Slot)
      requires c.Valid() && c.Rest().Some? && Tok.IsDash(c.Rest().value)
      modifies c`cur
      ensures c.Valid() && old(c.cur).value <= c.Limit() && c.Rest().GetOr("") == Tok.Rest(old(c.Rest()).value)
      ensures slot == if d == 'd' then IntOut(-1) else Untouched
    {
      ghost var rest := c.Rest().value;
      Tok.DashIsToken(rest);
      c.cur := Some(c.cur.value + 2);
      assert c.Rest() == Some(rest[2..]);
      slot := if d == 'd' then IntOut(-1) else Untouched;
    }

    /** The switch over the directives. */
    method Conversion(d: char, c: Cursor) returns (ok: bool, slot: Slot)
      requires c.Valid() && c.Rest().Some?
      modifies c`cur, c.buf
      ensures c.Valid() && old(c.cur).value <= c.Limit()
      ensures var rest := old(c.Rest()).value;
              var t := Tok.Token(Tok.NextTok(rest).0, false);
              ok == Tok.Convert(d, t).0 && HoldsBefore(c.buf[..], slot, Tok.Convert(d, t).1, c.Limit()) &&
              (ok ==> c.Rest().GetOr("") == Tok.Rest(rest))
      ensures forall k :: 0 <= k < c.buf.Length && (k < old(c.cur).value || k > c.end) ==> c.buf[k] == old(c.buf[k])
    {
      slot := Untouched;
      match d
      case 'd' =>
        var err, n := c.NextInt(10, false);
        slot := IntOut(n.value);
        ok := err >= 0;
      case 'x' =>
        var err, n := c.NextInt(16, true);
        slot := IntOut(n.value);
        ok := err >= 0;
      case 'b' =>
        var err, n := c.NextBool();
        slot := if n.Some? then BoolOut(n.value) else Untouched;
        ok := err >= 0;
      case 's' =>
        var err, q := c.NextStr();
        slot := StrOut(q.value);
        ok := err >= 0;
      case _ =>
        ok := false;
    }

    /** `at_tok_scanf`: the count returned, and for each variable consumed what it holds.  The
        n-th directive is applied to the n-th token of the line, up to the first one that does
        not convert. */
    method AtTokScanf(inLine: Option<string>, fmt: string) returns (n: nat, slots: seq<Slot>)
      requires Valid() && NulFree(fmt)
      requires inLine.Some? ==> NulFree(inLine.value) && |inLine.value| < TMP_SIZE
      requires inLine.Some? ==>
                 var body := Tok.AfterColon(Tok.Collapse(inLine.value));
                 body.Some? ==> Tok.StaysInFormat(Directives(fmt), Tok.Tokens(body.value))
      modifies sLine
      ensures Valid()
      ensures inLine.None? ==> n == 0 && slots == []
      ensures inLine.Some? ==>
                var body := Tok.AfterColon(Tok.Collapse(inLine.value));
                if body.None? then n == 0 && slots == [] else Scanned(sLine[..], body.value, fmt, n, slots)
    {
      n, slots := 0, [];
      if inLine.None? {
        return;
      }
      var c := Load(inLine.value);
      var err := c.Start();
      if err < 0 {
        return;
      }
      ghost var specs;
      n, slots, specs := ScanLoop(fmt, c);
      HoldsFramed(sLine[..], sLine[..], slots, specs, c.Limit(), LINE_SIZE);
    }

    /** The line with its commas collapsed, and a cursor at its front. */
    method Load(inLine: string) returns (c: Cursor)
      requires Valid() && NulFree(inLine) && |inLine| < TMP_SIZE
      modifies sLine
      ensures Valid() && fresh(c) && c.Valid() && c.buf == sLine && c.end < LINE_SIZE - 1
      ensures c.Rest() == Some(Tok.Collapse(inLine))
    {
      var line := RemoveConsecutiveCommas(inLine);
      Tok.CollapseShape(inLine);
      CopyCut(sLine, line);
      assert Take(line, LINE_SIZE - 1) == line;
      c := new Cursor(sLine, line);
    }

    /** The loop over the format. */
    method ScanLoop(fmt: string, c: Cursor) returns (n: nat, slots: seq<Slot>, ghost specs: seq<Tok.Slot>)
      requires Valid() && NulFree(fmt) && c.buf == sLine && c.end < LINE_SIZE - 1
      requires c.Valid() && c.Rest().Some? && Tok.StaysInFormat(Directives(fmt), Tok.Tokens(c.Rest().value))
      modifies c`cur, sLine
      ensures Valid() && c.Valid() && AllHold(sLine[..], slots, specs, c.Limit())
      ensures var ds, ts := Directives(fmt), Tok.Tokens(old(c.Rest()).value);
              n == Tok.Converted(ds, ts) && specs == Tok.Stored(ds, ts)
    {
      ghost var ds, ts := Directives(fmt), Tok.Tokens(c.Rest().value);
      n, slots, specs := 0, [], [];
      var p := 0;
      FormatStarts(fmt);
      assert Progress(ds, ts, 0, [], ts) by { assert ds[0..] == ds && ts[0..] == ts; }
      while p < |fmt|
        invariant FormatAt(fmt, p, n)
        invariant Valid() && c.Valid()
        invariant Progress(ds, ts, n, specs, Tok.Tokens(c.Rest().GetOr("")))
        invariant AllHold(sLine[..], slots, specs, c.Limit())
        decreases |fmt| - p
      {
        FormatStep(fmt, p, n);
        if fmt[p] == ',' || fmt[p] == ' ' {
          p := p + 1;
          continue;
        }
        if fmt[p] != '%' {
          ProgressEnds(ds, ts, n, specs, Tok.Tokens(c.Rest().GetOr("")));
          return;
        }
        p := p + 1;
        var go;
        go, n, slots, specs := Apply(if p < |fmt| then fmt[p] else NUL, c, n, slots, specs, ds, ts);
        if !go {
          return;
        }
        p := p + 1;
      }
      FormatEnds(fmt, n);
      ProgressEnds(ds, ts, n, specs, Tok.Tokens(c.Rest().GetOr("")));
    }

    /** The part of the loop's body behind a '%': false when the scan is over. */
    method Apply(d: char, c: Cursor, n: nat, slots: seq<Slot>, ghost specs: seq<Tok.Slot>,
                 ghost ds: string, ghost ts: seq<Tok.Token>)
      returns (go: bool, n': nat, slots': seq<Slot>, ghost specs': seq<Tok.Slot>)
      requires Valid() && c.Valid() && c.buf == sLine && c.end < LINE_SIZE - 1
      requires n < |ds| && d == ds[n] && AllHold(sLine[..], slots, specs, c.Limit())
      requires Progress(ds, ts, n, specs, Tok.Tokens(c.Rest().GetOr(""))) && Tok.StaysInFormat(ds, ts)
      modifies c`cur, sLine
      ensures Valid() && c.Valid() && AllHold(sLine[..], slots', specs', c.Limit())
      ensures if go then d != NUL && n' == n + 1 && Progress(ds, ts, n', specs', Tok.Tokens(c.Rest().GetOr("")))
              else n' == Tok.Converted(ds, ts) && specs' == Tok.Stored(ds, ts)
    {
      var more := c.HasMore();
      if more {
        go, n', slots', specs' := Carry(d, c, n, slots, specs, ds, ts);
      } else {
        ProgressEnds(ds, ts, n, specs, Tok.Tokens(c.Rest().GetOr("")));
        HoldsSnoc(sLine[..], slots, specs, c.Limit(), Untouched, Tok.Untouched);
        go, n', slots', specs' := false, n, slots + [Untouched], specs + [Tok.Untouched];
      }
    }

    /** A directive with a token to convert. */
    method Carry(d: char, c: Cursor, n: nat, slots: seq<Slot>, ghost specs: seq<Tok.Slot>,
                 ghost ds: string, ghost ts: seq<Tok.Token>)
      returns (go: bool, n': nat, slots': seq<Slot>, ghost specs': seq<Tok.Slot>)
      requires Valid() && c.Valid() && c.buf == sLine && c.end < LINE_SIZE - 1
      requires n < |ds| && d == ds[n] && AllHold(sLine[..], slots, specs, c.Limit()) && c.Rest().GetOr("") != ""
      requires Progress(ds, ts, n, specs, Tok.Tokens(c.Rest().GetOr(""))) && Tok.StaysInFormat(ds, ts)
      modifies c`cur, sLine
      ensures Valid() && c.Valid() && AllHold(sLine[..], slots', specs', c.Limit())
      ensures if go then d != NUL && n' == n + 1 && Progress(ds, ts, n', specs', Tok.Tokens(c.Rest().GetOr("")))
              else n' == Tok.Converted(ds, ts) && specs' == Tok.Stored(ds, ts)
    {
      ghost var was, limit, left := sLine[..], c.Limit(), Tok.Tokens(c.Rest().value);
      ProgressStep(ds, ts, n, specs, left);
      NoDashBehindFormat(ds, ts, n, specs, left);
      ghost var spec := Tok.Convert(d, left[0]).1;
      var slot;
      go, slot := Directive(d, c);
      HoldsMore(was, sLine[..], slots, specs, limit, c.Limit(), slot, spec);
      n', slots', specs' := if go then n + 1 else n, slots + [slot], specs + [spec];
    }
  }

  /** n directives have been converted, into `specs`; the tokens `left` are still to come. */
  ghost predicate Progress(ds: string, ts: seq<Tok.Token>, n: nat, specs: seq<Tok.Slot>, left: seq<Tok.Token>)
  {
    n <= |ds| && n <= |ts| && left == ts[n..] &&
    n + Tok.Converted(ds[n..], left) == Tok.Converted(ds, ts) &&
    specs + Tok.Stored(ds[n..], left) == Tok.Stored(ds, ts)
  }

  lemma ProgressStep(ds: string, ts: seq<Tok.Token>, n: nat, specs: seq<Tok.Slot>, left: seq<Tok.Token>)
    requires Progress(ds, ts, n, specs, left) && n < |ds| && left != []
    ensures var (ok, slot) := Tok.Convert(ds[n], left[0]);
            if ok then Progress(ds, ts, n + 1, specs + [slot], left[1..])
            else n == Tok.Converted(ds, ts) && specs + [slot] == Tok.Stored(ds, ts)
  {
    Shifted(ds, ts, n, left);
    OneConversion(ds[n..], left, specs);
  }

  lemma Shifted(ds: string, ts: seq<Tok.Token>, n: nat, left: seq<Tok.Token>)
    requires n < |ds| && n <= |ts| && left == ts[n..] && left != []
    ensures ds[n..][0] == ds[n] && ds[n..][1..] == ds[n + 1..] && left[0] == ts[n] && left[1..] == ts[n + 1..]
  {
  }

  /** The directive behind the format meets no place holder. */
  lemma NoDashBehindFormat(ds: string, ts: seq<Tok.Token>, n: nat, specs: seq<Tok.Slot>, left: seq<Tok.Token>)
    requires Progress(ds, ts, n, specs, left) && n < |ds| && left != [] && Tok.StaysInFormat(ds, ts)
    ensures ds[n] == NUL ==> !left[0].dash
  {
    Shifted(ds, ts, n, left);
    OneConversion(ds[n..], left, specs);
  }

  lemma OneConversion(ds: string, ts: seq<Tok.Token>, specs: seq<Tok.Slot>)
    requires ds != "" && ts != []
    ensures var (ok, slot) := Tok.Convert(ds[0], ts[0]);
            Tok.Converted(ds, ts) == (if ok then 1 + Tok.Converted(ds[1..], ts[1..]) else 0) &&
            specs + Tok.Stored(ds, ts) == specs + [slot] + (if ok then Tok.Stored(ds[1..], ts[1..]) else [])
  {
    var (ok, slot) := Tok.Convert(ds[0], ts[0]);
    assert ok ==> specs + ([slot] + Tok.Stored(ds[1..], ts[1..])) == specs + [slot] + Tok.Stored(ds[1..], ts[1..]);
  }

  lemma ProgressEnds(ds: string, ts: seq<Tok.Token>, n: nat, specs: seq<Tok.Slot>, left: seq<Tok.Token>)
    requires Progress(ds, ts, n, specs, left) && (n == |ds| || left == [])
    ensures n == Tok.Converted(ds, ts)
    ensures Tok.Stored(ds, ts) == specs + if n == |ds| then [] else [Tok.Untouched]
  {
    assert specs + [] == specs;
  }
}
