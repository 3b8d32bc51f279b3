/** `at_get_cme_error`, from the line of the modem to the code given to the caller. */
module Cme {
  import opened CText
  import opened Numbers
  import opened Classify
  import opened Protocol
  import opened ProtocolRuns
  import opened Delivered
  import RoundTrip
  import Scanner
  import Tok

  const CME_ERROR_NON_CME := -1
  const CME_SUCCESS := 0
  const CME_PREFIX: string := "+CME ERROR:"

  /** What the code of a response is. */
  function ErrorCode(r: Option<Response>): int
  {
    if r.None? then CME_ERROR_NON_CME
    else if r.value.success then CME_SUCCESS
    else if r.value.final.None? || !(CME_PREFIX <= r.value.final.value) then CME_ERROR_NON_CME
    else
      var body := Tok.AfterColon(r.value.final.value);
      if body.None? then CME_ERROR_NON_CME
      else TokenInt(Tok.NextTok(body.value).0, 10, false).GetOr(CME_ERROR_NON_CME)
  }

  method GetCmeError(r: Option<Response>) returns (code: int)
    requires r.Some? && r.value.final.Some? ==> NulFree(r.value.final.value)
    ensures code == ErrorCode(r)
    ensures r.None? ==> code == -1
    ensures r.Some? && r.value.success ==> code == 0
    ensures r.Some? && !r.value.success && (r.value.final.None? || !("+CME ERROR:" <= r.value.final.value)) ==>
              code == -1
  {
    if r.None? {
      return CME_ERROR_NON_CME;
    }
    if r.value.success {
      return CME_SUCCESS;
    }
    if r.value.final.None? {
      return CME_ERROR_NON_CME;
    }
    var line := r.value.final.value;
    var cme := StrStartsWith(line, CME_PREFIX);
    if !cme {
      return CME_ERROR_NON_CME;
    }
    var buf := new char[|line| + 1](_ => NUL);
    CopyCut(buf, line);
    var c := new Scanner.Cursor(buf, line);
    var err := c.Start();
    if err < 0 {
      return CME_ERROR_NON_CME;
    }
    var out;
    err, out := c.NextInt(10, false);
    if err < 0 {
      return CME_ERROR_NON_CME;
    }
    code := out.value;
  }

  // ----- the text behind the colon -----

  /** A failed response with this final line. */
  ghost predicate Failed(r: Response, final: string)
  {
    !r.success && r.final == Some(final)
  }

  lemma CodeOfToken(r: Response, body: string)
    requires Failed(r, "+CME ERROR:" + body)
    ensures ErrorCode(Some(r)) == TokenInt(Tok.NextTok(body).0, 10, false).GetOr(-1)
  {
    assert "+CME ERROR:" + body == "+CME ERROR" + [':'] + body;
    RoundTrip.AfterColonIs("+CME ERROR", body);
  }

  lemma PlainToken(gap: string, t: string, rest: string)
    requires AllBlanks(gap) && (rest != "" ==> rest[0] == ',')
    requires ',' !in t && (t != "" ==> t[0] != '"' && !IsSpace(t[0]))
    ensures Tok.NextTok(gap + t + rest).0 == t
  {
    var q := t + rest;
    assert gap + t + rest == gap + q && (q != "" ==> q[0] == if t == "" then rest[0] else t[0]);
    SkipBlanks(gap, q);
    Tok.SepIs(t, rest, ',');
  }

  /** A text without quotes behind the colon, up to a comma or the end. */
  lemma TextIsRead(r: Response, gap: string, t: string, rest: string)
    requires Failed(r, "+CME ERROR:" + (gap + t + rest)) && AllBlanks(gap) && (rest != "" ==> rest[0] == ',')
    requires ',' !in t && (t != "" ==> t[0] != '"' && !IsSpace(t[0]))
    ensures ErrorCode(Some(r)) == TokenInt(t, 10, false).GetOr(-1)
  {
    CodeOfToken(r, gap + t + rest);
    PlainToken(gap, t, rest);
  }

  /** A text in quotes. */
  lemma QuotedIsRead(r: Response, gap: string, t: string, junk: string, rest: string)
    requires Failed(r, "+CME ERROR:" + (gap + ("\"" + t + "\"" + junk + rest))) && AllBlanks(gap)
    requires '"' !in t && ',' !in junk && (rest != "" ==> rest[0] == ',')
    ensures ErrorCode(Some(r)) == TokenInt(t, 10, false).GetOr(-1)
  {
    var q := "\"" + t + "\"" + junk + rest;
    CodeOfToken(r, gap + q);
    RoundTrip.QuotedIsToken(t, junk, rest);
    RoundTrip.BlanksBefore(gap, q);
  }

  /** A number there is the code: a sign, digits, and whatever follows. */
  lemma NumberIsCode(r: Response, gap: string, sign: string, digits: string, junk: string, rest: string)
    requires Failed(r, "+CME ERROR:" + (gap + (sign + (digits + junk)) + rest))
    requires AllBlanks(gap) && (rest != "" ==> rest[0] == ',')
    requires Numeral("", sign, "", digits, junk, 10) && ',' !in junk
    ensures var m := Accumulate(0, digits, 10);
            ErrorCode(Some(r)) == Read32(if sign == "-" then 0 - m else m, m, false)
  {
    NumeralText(sign, digits, junk);
    TextIsRead(r, gap, sign + (digits + junk), rest);
    ReadsNumber(sign, digits, junk);
  }

  lemma ReadsNumber(sign: string, digits: string, junk: string)
    requires Numeral("", sign, "", digits, junk, 10)
    ensures var m := Accumulate(0, digits, 10);
            TokenInt(sign + (digits + junk), 10, false) == Some(Read32(if sign == "-" then 0 - m else m, m, false))
  {
    NumeralReads("", sign, "", digits, junk, 10, false);
    NoBlanks(sign, digits, junk);
  }

  lemma NoBlanks(sign: string, digits: string, junk: string)
    ensures "" + sign + ("" + digits + junk) == sign + (digits + junk)
  {
  }

  lemma NumeralText(sign: string, digits: string, junk: string)
    requires Numeral("", sign, "", digits, junk, 10) && ',' !in junk
    ensures var t := sign + (digits + junk); t != "" && ',' !in t && !IsSpace(t[0]) && t[0] != '"'
  {
    var t := sign + (digits + junk);
    assert t[0] == if sign == "" then digits[0] else sign[0];
    assert ',' !in digits && ',' !in sign;
  }

  /** Without one there is none: nothing, or something that is neither a digit nor a sign with a
      digit behind it. */
  lemma NoNumberNoCode(r: Response, gap: string, t: string, rest: string)
    requires Failed(r, "+CME ERROR:" + (gap + t + rest)) && AllBlanks(gap) && (rest != "" ==> rest[0] == ',')
    requires ',' !in t && (t != "" ==> t[0] != '"' && !IsSpace(t[0]) && !IsDigit(t[0]))
    requires |t| > 1 && (t[0] == '-' || t[0] == '+') ==> !IsDigit(t[1])
    ensures ErrorCode(Some(r)) == -1
  {
    TextIsRead(r, gap, t, rest);
    ReadsNone(t);
  }

  lemma ReadsNone(t: string)
    requires t != "" ==> !IsSpace(t[0]) && !IsDigit(t[0])
    requires |t| > 1 && (t[0] == '-' || t[0] == '+') ==> !IsDigit(t[1])
    ensures TokenInt(t, 10, false) == None
  {
    if t != "" && (t[0] == '-' || t[0] == '+') {
      assert "" + [t[0]] + t[1..] == t;
      NothingReads("", [t[0]], t[1..], 10, false);
    } else {
      assert "" + "" + t == t && (t != "" ==> [t[0]][0] == t[0]);
      NothingReads("", "", t, 10, false);
    }
  }

  // ----- the error line -----

  /** The error line of 3GPP TS 27.007, section 9.2. */
  function ErrorLine(n: int): string
  {
    "+CME ERROR:" + " " + PrintInt(n)
  }

  /** Reading the code back from its line. */
  lemma ErrorLineCode(r: Response, n: int)
    requires IsInt32(n) && Failed(r, ErrorLine(n))
    ensures ErrorCode(Some(r)) == n
  {
    var t := PrintInt(n);
    assert ErrorLine(n) == "+CME ERROR:" + (" " + t + "");
    CodeOfToken(r, " " + t + "");
    RoundTrip.PrintIntShape(n);
    PlainToken(" ", t, "");
    PrintedIntReads(n);
  }

  /** For any command, at any moment of any run and on any interleaving: the last final line among
      those the call has heard decides the code it is given. */
  lemma ErrorCodeArrives(raw: Option<string>, proxy: bool, es: seq<Event>, s: Sys, i: nat, at: nat)
    requires Run(Start(raw, proxy), es) == Some(s)
    requires i < |s.outcomes| && s.outcomes[i].Delivered?
    requires var ls := Heard(s.outcomes[i].call);
             at < |ls| && (Positive(ls[at]) || Negative(ls[at])) &&
             forall j :: at < j < |ls| ==> !Positive(ls[j]) && !Negative(ls[j])
    ensures var r, f := s.outcomes[i].response, Heard(s.outcomes[i].call)[at];
            r.final == Some(f) && (Positive(f) ==> ErrorCode(Some(r)) == 0) &&
            (Negative(f) ==> Failed(r, f)) && (Negative(f) && !("+CME ERROR:" <= f) ==> ErrorCode(Some(r)) == -1) &&
            (forall n :: IsInt32(n) && f == ErrorLine(n) ==> ErrorCode(Some(r)) == n)
  {
    DeliveredIsExact(raw, proxy, es, s, i);
    var r, ls := s.outcomes[i].response, Heard(s.outcomes[i].call);
    ExpectedIsMadeOf(s.outcomes[i].call);
    var k :| 0 <= k < |ls| && r.final == Some(ls[k]) && (r.success <==> Positive(ls[k])) &&
             (!r.success <==> Negative(ls[k])) && forall j :: k < j < |ls| ==> !Positive(ls[j]) && !Negative(ls[j]);
    assert k == at;
    forall n | IsInt32(n) && ls[at] == ErrorLine(n) ensures ErrorCode(Some(r)) == n {
      assert "+CME ERROR:" <= ErrorLine(n);
      ErrorLineCode(r, n);
    }
  }
}
