/** The AT tokenizer on strings: comma collapsing, tokens, and a format interpreted token by
    token. */
module Tok {
  import opened CText
  import opened Numbers

  // ----- consecutive commas -----

  /** Keeps the last comma of every run. */
  function Collapse(s: string): string
  {
    if s == "" then ""
    else (if s[0] == ',' && |s| > 1 && s[1] == ',' then "" else [s[0]]) + Collapse(s[1..])
  }

  ghost predicate NoAdjacentCommas(s: string)
  {
    forall i :: 0 <= i < |s| - 1 ==> !(s[i] == ',' && s[i + 1] == ',')
  }

  function NonCommas(s: string): string
  {
    if s == "" then "" else (if s[0] == ',' then "" else [s[0]]) + NonCommas(s[1..])
  }

  /** What happens at index i: a comma in front of another one is dropped. */
  function KeptAt(s: string, i: nat): string
    requires i < |s|
  {
    if s[i] == ',' && i + 1 < |s| && s[i + 1] == ',' then "" else [s[i]]
  }

  /** What the first i characters leave. */
  function KeptTo(s: string, i: nat): string
    requires i <= |s|
  {
    if i == 0 then "" else KeptTo(s, i - 1) + KeptAt(s, i - 1)
  }

  lemma {:induction false} CollapseFromLeft(s: string, i: nat)
    requires i <= |s|
    ensures Collapse(s) == KeptTo(s, i) + Collapse(s[i..])
  {
    if i == 0 {
      assert s[0..] == s;
    } else {
      CollapseFromLeft(s, i - 1);
      assert s[i - 1..][1..] == s[i..];
      assert Collapse(s[i - 1..]) == KeptAt(s, i - 1) + Collapse(s[i..]);
    }
  }

  /** What collapsing does to a string, and what it leaves alone. */
  lemma {:induction false} CollapseShape(s: string)
    ensures |Collapse(s)| <= |s| && NoAdjacentCommas(Collapse(s)) && NonCommas(Collapse(s)) == NonCommas(s)
    ensures s != "" ==> Collapse(s) != "" && (Collapse(s)[0] == ',' <==> s[0] == ',') && Last(Collapse(s)) == Last(s)
    ensures forall c :: c in Collapse(s) <==> c in s
  {
    if s != "" {
      CollapseShape(s[1..]);
      var head := if s[0] == ',' && |s| > 1 && s[1] == ',' then "" else [s[0]];
      var t := Collapse(s[1..]);
      assert Collapse(s) == head + t;
      assert s == [s[0]] + s[1..];
      if head == "" {
        assert Collapse(s) == t;
      } else {
        assert Collapse(s)[1..] == t;
      }
    }
  }

  lemma {:induction false} CollapseFixed(s: string)
    requires NoAdjacentCommas(s)
    ensures Collapse(s) == s
  {
    if s != "" {
      var t := s[1..];
      assert forall i :: 0 <= i < |t| ==> t[i] == s[i + 1];
      CollapseFixed(s[1..]);
      assert s == [s[0]] + s[1..];
    }
  }

  /** Collapsing leaves no two commas together, keeps everything else in order, and is settled
      after one pass. */
  lemma CollapseIdempotent(s: string)
    ensures NoAdjacentCommas(Collapse(s)) && NonCommas(Collapse(s)) == NonCommas(s)
    ensures Collapse(Collapse(s)) == Collapse(s)
  {
    CollapseShape(s);
    CollapseFixed(Collapse(s));
  }

  lemma CollapseCons(x: char, t: string)
    ensures Collapse([x] + t) == (if x == ',' && t != "" && t[0] == ',' then "" else [x]) + Collapse(t)
  {
    var s := [x] + t;
    assert s[1..] == t;
  }

  lemma {:induction false} CollapseAround(a: string, c: char, b: string)
    requires c != ','
    ensures Collapse(a + [c] + b) == Collapse(a) + [c] + Collapse(b)
  {
    if a == "" {
      assert a + [c] + b == [c] + b;
      CollapseCons(c, b);
    } else {
      var rest := a[1..] + [c] + b;
      assert a + [c] + b == [a[0]] + rest && a == [a[0]] + a[1..];
      assert rest[0] == if |a| > 1 then a[1] else c;
      CollapseCons(a[0], rest);
      CollapseAround(a[1..], c, b);
    }
  }

  // ----- tokens -----

  /** `strchr(s, ':') + 1`. */
  function AfterColon(s: string): Option<string>
  {
    if s == "" then None else if s[0] == ':' then Some(s[1..]) else AfterColon(s[1..])
  }

  /** `strsep`: the part before the delimiter and, if there is one, the part behind it. */
  function Sep(s: string, delim: char): (r: (string, Option<string>))
    ensures |r.0| <= |s| && (r.1.Some? ==> |r.0| + 1 + |r.1.value| == |s|)
  {
    if s == "" then ("", None)
    else if s[0] == delim then ("", Some(s[1..]))
    else var (a, b) := Sep(s[1..], delim); ([s[0]] + a, b)
  }

  lemma {:induction false} SepIs(a: string, rest: string, delim: char)
    requires delim !in a && (rest != "" ==> rest[0] == delim)
    ensures Sep(a + rest, delim) == (a, if rest == "" then None else Some(rest[1..]))
  {
    if a == "" {
      assert a + rest == rest;
    } else {
      assert (a + rest)[0] == a[0] && (a + rest)[1..] == a[1..] + rest;
      assert a == [a[0]] + a[1..];
      SepIs(a[1..], rest, delim);
    }
  }

  function AfterComma(s: string): (r: string)
    ensures |r| <= |s|
  {
    if s == "" then "" else if s[0] == ',' then s[1..] else AfterComma(s[1..])
  }

  lemma {:induction false} SkipWsShorter(s: string)
    ensures |SkipWs(s)| <= |s|
  {
    if s != "" && IsSpace(s[0]) { SkipWsShorter(s[1..]); }
  }

  /** `nextTok` on a cursor that is not NULL: the token and the new cursor. */
  function NextTok(s: string): (r: (string, Option<string>))
    ensures s != "" && r.1.Some? ==> |r.1.value| < |s|
  {
    SkipWsShorter(s);
    var t := SkipWs(s);
    if t != "" && t[0] == '"' then
      var (tok, rest) := Sep(t[1..], '"');
      (tok, if rest.Some? then Some(AfterComma(rest.value)) else None)
    else Sep(t, ',')
  }

  /** A token, and whether it is the place holder of a missing value: a dash directly followed
      by a comma. */
  datatype Token = Token(text: string, dash: bool)

  predicate IsDash(s: string)
  {
    |s| > 1 && s[0] == '-' && s[1] == ','
  }

  function Rest(s: string): (r: string)
    ensures s != "" ==> |r| < |s|
  {
    NextTok(s).1.GetOr("")
  }

  function Tokens(s: string): seq<Token>
    decreases |s|
  {
    if s == "" then [] else [Token(NextTok(s).0, IsDash(s))] + Tokens(Rest(s))
  }

  /** The dash rule moves the cursor just as taking the token would. */
  lemma DashIsToken(s: string)
    requires IsDash(s)
    ensures NextTok(s) == ("-", Some(s[2..]))
  {
    var t := s[1..];
    assert t[0] == ',' && t[1..] == s[2..];
    assert Sep(t, ',') == ("", Some(s[2..]));
    assert SkipWs(s) == s;
    assert ['-'] + "" == "-";
  }

  // ----- conversions -----

  /** What a directive leaves in the variable it was given. */
  datatype Slot = Untouched | IntOut(n: int) | BoolOut(b: int) | StrOut(text: string)

  /** One directive applied to one token: whether it converts, and what it stores. */
  function Convert(d: char, t: Token): (bool, Slot)
  {
    if t.dash && d != NUL then (true, if d == 'd' then IntOut(-1) else Untouched)
    else match d
      case 'd' => var n := TokenInt(t.text, 10, false); (n.Some?, IntOut(n.GetOr(0)))
      case 'x' => var n := TokenInt(t.text, 16, true); (n.Some?, IntOut(n.GetOr(0)))
      case 'b' =>
        var n := TokenInt(t.text, 10, false);
        if n == Some(0) || n == Some(1) then (true, BoolOut(n.value)) else (false, Untouched)
      case 's' => (true, StrOut(t.text))
      case _ => (false, Untouched)
  }

  /** The directive behind a '%' at the end of a format is the terminator.  It converts nothing and
      ends the scan, unless it meets a place holder: then the original would go on behind the
      format. */
  ghost predicate StaysInFormat(ds: string, ts: seq<Token>)
  {
    var n := Converted(ds, ts);
    n < |ds| && n < |ts| && ds[n] == NUL ==> !ts[n].dash
  }

  /** How many leading directives convert. */
  function Converted(ds: string, ts: seq<Token>): nat
  {
    if ds == "" || ts == [] || !Convert(ds[0], ts[0]).0 then 0 else 1 + Converted(ds[1..], ts[1..])
  }

  /** What the variables consumed hold: one for each directive converted, and one for the
      directive that stopped the scan, if a directive did. */
  function Stored(ds: string, ts: seq<Token>): seq<Slot>
  {
    if ds == "" then []
    else if ts == [] then [Untouched]
    else
      var (ok, slot) := Convert(ds[0], ts[0]);
      [slot] + if ok then Stored(ds[1..], ts[1..]) else []
  }

  /** Directive k meets token k: the count is the position of the first pair that does not
      convert or of the end of either list, and every slot below it is the conversion of its
      own token. */
  lemma {:induction false} ScanIsTokenwise(ds: string, ts: seq<Token>)
    ensures var n := Converted(ds, ts);
            n <= |ds| && n <= |ts| &&
            (forall i :: 0 <= i < n ==> Convert(ds[i], ts[i]).0) &&
            (n == |ds| || n == |ts| || !Convert(ds[n], ts[n]).0) &&
            |Stored(ds, ts)| == n + (if n < |ds| then 1 else 0) &&
            (forall i :: 0 <= i < n ==> Stored(ds, ts)[i] == Convert(ds[i], ts[i]).1) &&
            (n < |ds| ==> Stored(ds, ts)[n] == if n < |ts| then Convert(ds[n], ts[n]).1 else Untouched)
  {
    if ds != "" && ts != [] && Convert(ds[0], ts[0]).0 {
      ScanIsTokenwise(ds[1..], ts[1..]);
    }
  }
}
