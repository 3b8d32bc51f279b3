/** Classification of received lines: the prefix tables of final and SMS lines and the tests
    a pending command's type applies to an intermediate line. */
module Classify {
  import opened CText

  const ERROR_FINALS: seq<string> :=
    ["ERROR", "+CMS ERROR:", "+CME ERROR:", "NO CARRIER", "NO ANSWER", "NO DIALTONE", "COMMAND NOT SUPPORT"]

  const SUCCESS_FINALS: seq<string> :=
    ["OK", "+QIND: \"FOTA\",\"END\",0", "CONNECT"]

  const SMS_HEADERS: seq<string> :=
    ["+CMT:", "+CDS:", "+CBM:", "+CMTI:"]

  const CONNECT: string := "CONNECT"

  predicate HasPrefixIn(line: string, table: seq<string>)
  {
    exists i :: 0 <= i < |table| && table[i] <= line
  }

  predicate IsSuccess(line: string) { HasPrefixIn(line, SUCCESS_FINALS) }
  predicate IsError(line: string) { HasPrefixIn(line, ERROR_FINALS) }
  predicate IsFinal(line: string) { IsSuccess(line) || IsError(line) }
  predicate IsSmsHeader(line: string) { HasPrefixIn(line, SMS_HEADERS) }

  /** Two prefixes that differ somewhere within both of them start no common line. */
  ghost predicate Diverge(a: string, b: string)
  {
    exists k :: 0 <= k < |a| && k < |b| && a[k] != b[k]
  }

  lemma DivergingPrefixes(a: string, b: string, line: string)
    requires Diverge(a, b) && a <= line
    ensures !(b <= line)
  {
    var k :| 0 <= k < |a| && k < |b| && a[k] != b[k];
    assert line[k] == a[k];
  }

  lemma TablesDiverge()
    ensures forall i, j :: 0 <= i < |SUCCESS_FINALS| && 0 <= j < |ERROR_FINALS| ==>
              Diverge(SUCCESS_FINALS[i], ERROR_FINALS[j])
    ensures forall i, j :: 0 <= i < |SMS_HEADERS| && 0 <= j < |ERROR_FINALS| ==>
              Diverge(SMS_HEADERS[i], ERROR_FINALS[j])
    ensures forall i, j :: 0 <= i < |SMS_HEADERS| && 0 <= j < |SUCCESS_FINALS| ==>
              Diverge(SMS_HEADERS[i], SUCCESS_FINALS[j])
  {
    forall i, j | 0 <= i < |SUCCESS_FINALS| && 0 <= j < |ERROR_FINALS|
      ensures Diverge(SUCCESS_FINALS[i], ERROR_FINALS[j])
    {
      var a, b := SUCCESS_FINALS[i], ERROR_FINALS[j];
      assert a[0] != b[0] || a[1] != b[1] || a[2] != b[2];
    }
    forall i, j | 0 <= i < |SMS_HEADERS| && 0 <= j < |ERROR_FINALS|
      ensures Diverge(SMS_HEADERS[i], ERROR_FINALS[j])
    {
      var a, b := SMS_HEADERS[i], ERROR_FINALS[j];
      assert a[0] != b[0] || a[1] != b[1] || a[2] != b[2] || a[3] != b[3];
    }
    forall i, j | 0 <= i < |SMS_HEADERS| && 0 <= j < |SUCCESS_FINALS|
      ensures Diverge(SMS_HEADERS[i], SUCCESS_FINALS[j])
    {
      var a, b := SMS_HEADERS[i], SUCCESS_FINALS[j];
      assert a[0] != b[0] || a[1] != b[1];
    }
  }

  /** No line is both a success and an error, and no SMS header is final. */
  lemma FinalTablesDisjoint(line: string)
    ensures !(IsSuccess(line) && IsError(line))
    ensures IsSmsHeader(line) ==> !IsFinal(line)
  {
    TablesDiverge();
    forall i, j | 0 <= i < |SUCCESS_FINALS| && 0 <= j < |ERROR_FINALS| && SUCCESS_FINALS[i] <= line
      ensures !(ERROR_FINALS[j] <= line)
    {
      DivergingPrefixes(SUCCESS_FINALS[i], ERROR_FINALS[j], line);
    }
    forall i, j | 0 <= i < |SMS_HEADERS| && SMS_HEADERS[i] <= line && 0 <= j < |ERROR_FINALS|
      ensures !(ERROR_FINALS[j] <= line)
    {
      DivergingPrefixes(SMS_HEADERS[i], ERROR_FINALS[j], line);
    }
    forall i, j | 0 <= i < |SMS_HEADERS| && SMS_HEADERS[i] <= line && 0 <= j < |SUCCESS_FINALS|
      ensures !(SUCCESS_FINALS[j] <= line)
    {
      DivergingPrefixes(SMS_HEADERS[i], SUCCESS_FINALS[j], line);
    }
  }

  /** The three tables, spelled out. */
  lemma TablesSpelled(line: string)
    ensures IsSuccess(line) <==> "OK" <= line || "+QIND: \"FOTA\",\"END\",0" <= line || "CONNECT" <= line
    ensures IsError(line) <==>
              "ERROR" <= line || "+CMS ERROR:" <= line || "+CME ERROR:" <= line || "NO CARRIER" <= line ||
              "NO ANSWER" <= line || "NO DIALTONE" <= line || "COMMAND NOT SUPPORT" <= line
    ensures IsSmsHeader(line) <==> "+CMT:" <= line || "+CDS:" <= line || "+CBM:" <= line || "+CMTI:" <= line
  {
    assert SUCCESS_FINALS[0] == "OK" && SUCCESS_FINALS[2] == "CONNECT";
    assert SUCCESS_FINALS[1] == "+QIND: \"FOTA\",\"END\",0";
    assert ERROR_FINALS[0] == "ERROR" && ERROR_FINALS[1] == "+CMS ERROR:" && ERROR_FINALS[2] == "+CME ERROR:";
    assert ERROR_FINALS[3] == "NO CARRIER" && ERROR_FINALS[4] == "NO ANSWER" && ERROR_FINALS[5] == "NO DIALTONE";
    assert ERROR_FINALS[6] == "COMMAND NOT SUPPORT";
    assert SMS_HEADERS[0] == "+CMT:" && SMS_HEADERS[1] == "+CDS:";
    assert SMS_HEADERS[2] == "+CBM:" && SMS_HEADERS[3] == "+CMTI:";
  }

  method StartsWithAny(line: string, table: seq<string>) returns (b: bool)
    ensures b <==> HasPrefixIn(line, table)
  {
    for i := 0 to |table|
      invariant forall j :: 0 <= j < i ==> !(table[j] <= line)
    {
      var starts := StrStartsWith(line, table[i]);
      if starts {
        return true;
      }
    }
    return false;
  }

  /** What a command expects between its echo and its final line.  The response prefix belongs
      to the two kinds that compare against it. */
  datatype Kind = NoResult | Numeric | SingleLine(prefix: string) | MultiLine(prefix: string) | AsciiCode

  predicate IsCodeChar(c: char)
  {
    IsAlnum(c) || c in "_- .+"
  }

  predicate IsAsciiCode(line: string)
  {
    !Contains(line, "OK") && !Contains(line, "AT") && !Contains(line, ":") &&
    forall i :: 0 <= i < |line| ==> IsCodeChar(line[i])
  }

  method ScanAsciiCode(line: string) returns (b: bool)
    ensures b <==> IsAsciiCode(line)
  {
    if Contains(line, "OK") || Contains(line, "AT") || Contains(line, ":") {
      return false;
    }
    for i := 0 to |line|
      invariant forall j :: 0 <= j < i ==> IsCodeChar(line[j])
    {
      if line[i] == '_' || line[i] == '-' || line[i] == ' ' || line[i] == '.' || line[i] == '+' {
        continue;
      }
      if !IsAlnum(line[i]) {
        return false;
      }
    }
    return true;
  }

  /** The test an intermediate line has to pass. */
  predicate Matches(kind: Kind, line: string)
  {
    match kind
    case NoResult => false
    case Numeric => line != "" && IsDigit(line[0])
    case SingleLine(prefix) => prefix <= line
    case MultiLine(prefix) => prefix <= line
    case AsciiCode => IsAsciiCode(line)
  }
}
