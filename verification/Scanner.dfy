/** The tokenizer as it runs: a cursor into a buffer that `strsep` cuts up with NULs, the
    comma-collapsing pass in front, and the format loop on top. */
module Scanner {
  import opened CText
  import opened Numbers
  import Tok

  /** `char **p_cur`: the cursor is None when the pointer is NULL. */
  class Cursor {
    const buf: array<char>
    var cur: Option<nat>
    /** Where the line ends. */
    ghost var end: nat

    ghost predicate Valid()
      reads this, buf
    {
      end < buf.Length && buf[end] == NUL &&
      (cur.Some? ==> cur.value <= end && forall i :: cur.value <= i < end ==> buf[i] != NUL)
    }

    ghost function Rest(): Option<string>
      requires Valid()
      reads this, buf
    {
      if cur.None? then None else Some(buf[cur.value..end])
    }

    /** First index not yet passed by the cursor. */
    ghost function Limit(): nat
      reads this
    {
      if cur.Some? then cur.value else end + 1
    }

    constructor (buf: array<char>, ghost line: string)
      requires StringAt(buf[..], 0, line)
      ensures Valid() && this.buf == buf && end == |line| && cur == Some(0) && Rest() == Some(line)
    {
      this.buf, this.cur, this.end := buf, Some(0), |line|;
      assert forall i :: 0 <= i < |line| ==> buf[i] == buf[..][0..|line|][i] == line[i];
    }

    method Start() returns (err: int)
      requires Valid()
      modifies this`cur
      ensures Valid() && (err == 0 || err == -1) && (err == 0 <==> Rest().Some?)
      ensures old(Rest()).Some? ==> Rest() == Tok.AfterColon(old(Rest()).value)
      ensures old(Rest()).None? ==> Rest().None?
      ensures err == 0 ==> old(cur).Some? && old(cur).value <= cur.value
    {
      if cur.None? {
        return -1;
      }
      var i := cur.value;
      while buf[i] != NUL && buf[i] != ':'
        invariant cur.value <= i <= end
        invariant Tok.AfterColon(buf[i..end]) == Tok.AfterColon(buf[cur.value..end])
        decreases end - i
      {
        assert buf[i..end][1..] == buf[i + 1..end];
        i := i + 1;
      }
      if buf[i] == NUL {
        cur := None;
        return -1;
      }
      assert buf[i..end][1..] == buf[i + 1..end];
      cur := Some(i + 1);
      err := 0;
    }

    method SkipWhiteSpace()
      requires Valid()
      modifies this`cur
      ensures Valid() && cur.Some? == old(cur).Some?
      ensures cur.Some? ==> old(cur).value <= cur.value && Rest() == Some(SkipWs(old(Rest()).value))
    {
      if cur.None? {
        return;
      }
      ghost var from := cur.value;
      while buf[cur.value] != NUL && IsSpace(buf[cur.value])
        invariant cur.Some? && from <= cur.value <= end
        invariant SkipWs(buf[cur.value..end]) == SkipWs(buf[from..end])
        decreases end - cur.value
      {
        assert buf[cur.value..end][1..] == buf[cur.value + 1..end];
        cur := Some(cur.value + 1);
      }
    }

    method SkipNextComma()
      requires Valid()
      modifies this`cur
      ensures Valid() && cur.Some? == old(cur).Some?
      ensures cur.Some? ==> old(cur).value <= cur.value && Rest() == Some(Tok.AfterComma(old(Rest()).value))
    {
      if cur.None? {
        return;
      }
      ghost var from := cur.value;
      while buf[cur.value] != NUL && buf[cur.value] != ','
        invariant cur.Some? && from <= cur.value <= end
        invariant Tok.AfterComma(buf[cur.value..end]) == Tok.AfterComma(buf[from..end])
        decreases end - cur.value
      {
        assert buf[cur.value..end][1..] == buf[cur.value + 1..end];
        cur := Some(cur.value + 1);
      }
      if buf[cur.value] == ',' {
        assert buf[cur.value..end][1..] == buf[cur.value + 1..end];
        cur := Some(cur.value + 1);
      }
    }

    /** `strsep` with one delimiter: ends the token with a NUL and moves past it. */
    method StrSep(delim: char) returns (tok: nat)
      requires Valid() && cur.Some? && delim != NUL
      modifies this`cur, buf
      ensures Valid() && tok == old(cur).value
      ensures var (text, rest) := Tok.Sep(old(Rest()).value, delim);
              StringAt(buf[..], tok, text) && Rest() == rest && tok + |text| < Limit()
      ensures forall k :: 0 <= k < buf.Length && !(tok <= k < Limit()) ==> buf[k] == old(buf[k])
    {
      tok := cur.value;
      var i := tok;
      while buf[i] != NUL && buf[i] != delim
        invariant tok <= i <= end
        invariant forall k :: tok <= k < i ==> buf[k] != delim
        decreases end - i
      {
        i := i + 1;
      }
      ghost var text := buf[tok..i];
      assert buf[tok..end] == text + buf[i..end];
      Tok.SepIs(text, buf[i..end], delim);
      if buf[i] == NUL {
        cur := None;
      } else {
        assert buf[i..end][1..] == buf[i + 1..end];
        buf[i] := NUL;
        cur := Some(i + 1);
      }
      assert buf[tok..i] == text;
    }

    method NextTok() returns (tok: Option<nat>)
      requires Valid()
      modifies this`cur, buf
      ensures Valid() && tok.Some? == old(cur).Some?
      ensures tok.Some? ==>
                var (text, rest) := Tok.NextTok(old(Rest()).value);
                StringAt(buf[..], tok.value, text) && Rest() == rest &&
                old(cur).value <= tok.value && tok.value + |text| < Limit()
      ensures forall k :: 0 <= k < buf.Length && !(old(cur).Some? && old(cur).value <= k < Limit()) ==>
                buf[k] == old(buf[k])
    {
      SkipWhiteSpace();
      if cur.None? {
        return None;
      }
      if buf[cur.value] == '"' {
        assert buf[cur.value..end][1..] == buf[cur.value + 1..end];
        cur := Some(cur.value + 1);
        var t := StrSep('"');
        SkipNextComma();
        tok := Some(t);
      } else {
        var t := StrSep(',');
        tok := Some(t);
      }
    }

    /** `at_tok_nextint_base`: `out` is what is stored, if anything is. */
    method NextInt(base: int, uns: bool) returns (err: int, out: Option<int>)
      requires Valid() && base > 0
      modifies this`cur, buf
      ensures Valid()
      ensures old(cur).None? ==> err == -1 && out.None? && cur.None?
      ensures old(cur).Some? ==>
                var (text, rest) := Tok.NextTok(old(Rest()).value);
                var n := TokenInt(text, base, uns);
                Rest() == rest && old(cur).value < Limit() && out == Some(n.GetOr(0)) &&
                err == if n.Some? then 0 else -1
      ensures forall k :: 0 <= k < buf.Length && !(old(cur).Some? && old(cur).value <= k < Limit()) ==>
                buf[k] == old(buf[k])
    {
      if cur.None? {
        return -1, None;
      }
      ghost var rest := Rest().value;
      var tok := NextTok();
      if tok.None? {
        return -1, None;
      }
      var text := CopyString(buf, tok.value, Tok.NextTok(rest).0);
      var l := TokenInt(text, base, uns);
      out := Some(l.GetOr(0));
      err := if l.None? then -1 else 0;
    }

    /** `at_tok_nextbool`. */
    method NextBool() returns (err: int, out: Option<int>)
      requires Valid()
      modifies this`cur, buf
      ensures Valid()
      ensures old(cur).None? ==> err == -1 && out.None? && cur.None?
      ensures old(cur).Some? ==>
                var (text, rest) := Tok.NextTok(old(Rest()).value);
                var n := TokenInt(text, 10, false);
                var bit := n == Some(0) || n == Some(1);
                Rest() == rest && old(cur).value < Limit() && out == (if bit then n else None) &&
                err == if bit then 0 else -1
      ensures forall k :: 0 <= k < buf.Length && !(old(cur).Some? && old(cur).value <= k < Limit()) ==>
                buf[k] == old(buf[k])
    {
      var ret, result := NextInt(10, false);
      if ret < 0 {
        return -1, None;
      }
      if !(result == Some(0) || result == Some(1)) {
        return -1, None;
      }
      err, out := ret, result;
    }

    /** `at_tok_nextstr`. */
    method NextStr() returns (err: int, out: Option<nat>)
      requires Valid()
      modifies this`cur, buf
      ensures Valid() && err == if old(cur).Some? then 0 else -1
      ensures old(cur).None? ==> out.None? && cur.None?
      ensures old(cur).Some? ==>
                var (text, rest) := Tok.NextTok(old(Rest()).value);
                out.Some? && StringAt(buf[..], out.value, text) && Rest() == rest &&
                old(cur).value <= out.value && out.value + |text| < Limit()
      ensures forall k :: 0 <= k < buf.Length && !(old(cur).Some? && old(cur).value <= k < Limit()) ==>
                buf[k] == old(buf[k])
    {
      if cur.None? {
        return -1, None;
      }
      out := NextTok();
      err := 0;
    }

    method HasMore() returns (more: bool)
      requires Valid()
      ensures more <==> Rest().GetOr("") != ""
    {
      more := !(cur.None? || buf[cur.value] == NUL);
    }
  }
}
