/** Fields printed into a response line and scanned back. */
module RoundTrip {
  import opened CText
  import opened Numbers
  import opened Tok
  import opened Formats
  import Scanf

  /** A field of a line: an int, a number in hexadecimal, a flag, a quoted string, a bare word, or
      the dash that holds the place of a missing value, which a directive d meets. */
  datatype Field =
    | IntField(n: int)
    | HexField(h: nat, upper: bool, prefix: string)
    | BoolField(b: bool)
    | StrField(s: string)
    | WordField(w: string)
    | Missing(d: char)

  ghost predicate Printable(f: Field)
  {
    match f
    case IntField(n) => -2147483648 <= n <= 2147483647
    case HexField(h, _, prefix) => h <= 18446744073709551615 && (prefix == "" || prefix == "0x" || prefix == "0X")
    case BoolField(_) => true
    case StrField(s) => '"' !in s && NoAdjacentCommas(s)
    case WordField(w) => w != "" && w != "-" && ',' !in w && !IsSpace(w[0]) && w[0] != '"'
    case Missing(d) => d == 'd' || d == 'x' || d == 'b' || d == 's'
  }

  /** All fields are printable, and what follows the last one is nothing or begins with a comma,
      which a last place holder needs. */
  ghost predicate AllPrintable(fs: seq<Field>, tail: string)
  {
    (forall i :: 0 <= i < |fs| ==> Printable(fs[i])) && NoAdjacentCommas(tail) &&
    (tail != "" ==> tail[0] == ',') && (tail == "" && fs != [] ==> !Last(fs).Missing?)
  }

  /** What a string variable is given. */
  function Text(f: Field): string
  {
    match f
    case IntField(n) => PrintInt(n)
    case HexField(h, upper, prefix) => prefix + PrintHex(h, upper)
    case BoolField(b) => if b then "1" else "0"
    case StrField(s) => s
    case WordField(w) => w
    case Missing(_) => "-"
  }

  /** The field on the line, with blanks in front unless it is a place holder. */
  function Print(f: Field, gap: string): string
  {
    match f
    case StrField(s) => gap + "\"" + s + "\""
    case Missing(_) => "-"
    case _ => gap + Text(f)
  }

  function PrintFields(fs: seq<Field>, gap: string, tail: string): string
  {
    if fs == [] then tail
    else Print(fs[0], gap) + if |fs| == 1 then tail else "," + PrintFields(fs[1..], gap, tail)
  }

  /** The directive for a field. */
  function Letter(f: Field): char
  {
    match f
    case IntField(_) => 'd'
    case HexField(_, _, _) => 'x'
    case BoolField(_) => 'b'
    case StrField(_) => 's'
    case WordField(_) => 's'
    case Missing(d) => d
  }

  function Letters(fs: seq<Field>): (ds: string)
    ensures |ds| == |fs|
  {
    if fs == [] then "" else [Letter(fs[0])] + Letters(fs[1..])
  }

  function Format(fs: seq<Field>, seps: seq<string>): string
    requires |seps| == |fs|
  {
    FormatOf(Letters(fs), seps)
  }

  /** What the directive leaves in its variable: a missing int becomes -1, and any other missing
      value leaves its variable alone. */
  function FieldSlot(f: Field): Slot
  {
    match f
    case IntField(n) => IntOut(n)
    case HexField(h, _, _) => IntOut(ToInt32(h))
    case BoolField(b) => BoolOut(if b then 1 else 0)
    case StrField(s) => StrOut(s)
    case WordField(w) => StrOut(w)
    case Missing(d) => if d == 'd' then IntOut(-1) else Untouched
  }

  function Slots(fs: seq<Field>): seq<Slot>
  {
    if fs == [] then [] else [FieldSlot(fs[0])] + Slots(fs[1..])
  }

  lemma {:induction false} Lengths(fs: seq<Field>)
    ensures |Slots(fs)| == |fs|
  {
    if fs != [] { Lengths(fs[1..]); }
  }

  // ----- one field -----

  lemma PrintIntShape(n: int)
    ensures var s := PrintInt(n);
            s != "" && ',' !in s && !IsSpace(s[0]) && s[0] != '"' && (s[0] == '-' ==> |s| > 1 && IsDigit(s[1]))
  {
    var s := PrintInt(n);
    if n < 0 { assert s[1..] == PrintNat(-n); assert s[1] == PrintNat(-n)[0]; }
    forall i | 0 <= i < |s| ensures s[i] != ',' {
      if n < 0 && i > 0 { assert s[i] == PrintNat(-n)[i - 1]; }
    }
  }

  lemma PrintHexShape(h: nat, upper: bool, prefix: string)
    requires prefix == "" || prefix == "0x" || prefix == "0X"
    ensures var s := prefix + PrintHex(h, upper);
            s != "" && ',' !in s && !IsSpace(s[0]) && s[0] != '"' && s[0] != '-'
  {
    var ds := PrintHex(h, upper);
    var s := prefix + ds;
    assert s[0] == if prefix == "" then ds[0] else '0';
    forall i | 0 <= i < |s| ensures s[i] != ',' {
      if i >= |prefix| { assert s[i] == ds[i - |prefix|]; }
    }
  }

  /** A field without quotes. */
  lemma BareShape(f: Field)
    requires Printable(f) && !f.StrField?
    ensures var s := Text(f);
            s != "" && ',' !in s && !IsSpace(s[0]) && s[0] != '"' && (s[0] == '-' && |s| == 1 <==> f.Missing?)
  {
    match f
    case IntField(n) => PrintIntShape(n);
    case HexField(h, upper, prefix) => PrintHexShape(h, upper, prefix);
    case WordField(w) => if |w| == 1 { assert w == [w[0]]; }
    case _ =>
  }

  /** Blanks in front do not matter, except that they hide a dash. */
  lemma BlanksBefore(gap: string, s: string)
    requires AllBlanks(gap) && s != "" && !IsSpace(s[0])
    ensures NextTok(gap + s) == NextTok(s) && (gap != "" ==> !IsDash(gap + s))
  {
    SkipBlanks(gap, s);
    SkipBlanks("", s);
    assert "" + s == s;
  }

  lemma BareIsToken(s: string, rest: string)
    requires s != "" && ',' !in s && !IsSpace(s[0]) && s[0] != '"' && (rest != "" ==> rest[0] == ',')
    ensures var r := if rest == "" then None else Some(rest[1..]);
            NextTok(s + rest) == (s, r)
    ensures IsDash(s + rest) <==> s == "-" && rest != ""
  {
    assert (s + rest)[0] == s[0];
    SkipBlanks("", s + rest);
    assert "" + (s + rest) == s + rest;
    SepIs(s, rest, ',');
    if |s| > 1 { assert (s + rest)[1] == s[1]; }
  }

  lemma {:induction false} AfterCommaIs(junk: string, rest: string)
    requires ',' !in junk && (rest != "" ==> rest[0] == ',')
    ensures AfterComma(junk + rest) == if rest == "" then "" else rest[1..]
  {
    if junk == "" {
      assert junk + rest == rest;
    } else {
      assert (junk + rest)[0] == junk[0] && (junk + rest)[1..] == junk[1..] + rest;
      AfterCommaIs(junk[1..], rest);
    }
  }

  /** A token in quotes ends at the second quote, and the scan goes on behind the next comma; one
      that is never closed takes the rest of the line. */
  lemma QuotedIsToken(s: string, junk: string, rest: string)
    requires '"' !in s && ',' !in junk && (rest != "" ==> rest[0] == ',')
    ensures NextTok("\"" + s + "\"" + junk + rest) == (s, Some(if rest == "" then "" else rest[1..]))
    ensures NextTok("\"" + s) == (s, None)
  {
    var more := "\"" + (junk + rest);
    var all, open := ['"'] + (s + more), "\"" + s;
    assert "\"" + s + "\"" + junk + rest == all && all[1..] == s + more && more[1..] == junk + rest;
    SkipBlanks("", all);
    SkipBlanks("", open);
    assert "" + all == all && "" + open == open && open[1..] == s + "";
    SepIs(s, more, '"');
    SepIs(s, "", '"');
    AfterCommaIs(junk, rest);
  }

  /** The token at the front is this one, and the rest comes behind it. */
  ghost predicate Fronts(s: string, token: Token, rest: string)
  {
    s != "" && NextTok(s).0 == token.text && Rest(s) == (if rest == "" then "" else rest[1..]) &&
    (IsDash(s) <==> token.dash)
  }

  lemma QuotedFronts(s: string, gap: string, rest: string)
    requires '"' !in s && AllBlanks(gap) && (rest != "" ==> rest[0] == ',')
    ensures Fronts(gap + "\"" + s + "\"" + rest, Token(s, false), rest)
  {
    var q := "\"" + s + "\"" + rest;
    assert gap + "\"" + s + "\"" + rest == gap + q;
    QuotedIsToken(s, "", rest);
    assert "\"" + s + "\"" + "" + rest == q;
    BlanksBefore(gap, q);
    if gap == "" { assert gap + q == q; }
  }

  lemma BareFronts(s: string, gap: string, rest: string)
    requires s != "" && s != "-" && ',' !in s && !IsSpace(s[0]) && s[0] != '"' && AllBlanks(gap)
    requires rest != "" ==> rest[0] == ','
    ensures Fronts(gap + s + rest, Token(s, false), rest)
  {
    var q := s + rest;
    assert gap + s + rest == gap + q && q[0] == s[0];
    BareIsToken(s, rest);
    BlanksBefore(gap, q);
    if gap == "" { assert gap + q == q; }
  }

  /** A printed field in front of the end or of a comma is one token, and is taken for a missing
      value exactly when it is its place holder. */
  lemma FieldIsToken(f: Field, gap: string, rest: string)
    requires Printable(f) && AllBlanks(gap) && (rest != "" ==> rest[0] == ',') && (f.Missing? ==> rest != "")
    ensures var s := Print(f, gap) + rest;
            s != "" && NextTok(s).0 == Text(f) && Rest(s) == (if rest == "" then "" else rest[1..]) &&
            (IsDash(s) <==> f.Missing?)
  {
    if f.StrField? {
      QuotedFronts(f.s, gap, rest);
    } else if f.Missing? {
      BareIsToken("-", rest);
    } else {
      BareShape(f);
      assert Text(f) != "-";
      BareFronts(Text(f), gap, rest);
    }
  }

  /** The directive gives the field back. */
  lemma FieldConverts(f: Field)
    requires Printable(f)
    ensures Convert(Letter(f), Token(Text(f), f.Missing?)) == (true, FieldSlot(f))
  {
    match f
    case IntField(n) => PrintedIntReads(n);
    case HexField(h, upper, prefix) => PrintedHexReads(h, upper, prefix);
    case BoolField(b) =>
      PrintedIntReads(if b then 1 else 0);
      assert PrintInt(if b then 1 else 0) == Text(f);
    case _ =>
  }

  // ----- all fields -----

  /** The line behind the first field. */
  function Behind(fs: seq<Field>, gap: string, tail: string): string
    requires fs != []
  {
    if |fs| > 1 then PrintFields(fs[1..], gap, tail) else if tail == "" then "" else tail[1..]
  }

  lemma FirstToken(fs: seq<Field>, gap: string, tail: string)
    requires fs != [] && AllPrintable(fs, tail) && AllBlanks(gap)
    ensures var s := PrintFields(fs, gap, tail);
            s != "" && Tokens(s) == [Token(Text(fs[0]), fs[0].Missing?)] + Tokens(Behind(fs, gap, tail)) &&
            (IsDash(s) <==> fs[0].Missing?)
  {
    var rest := if |fs| == 1 then tail else "," + PrintFields(fs[1..], gap, tail);
    FieldIsToken(fs[0], gap, rest);
    assert (if rest == "" then "" else rest[1..]) == Behind(fs, gap, tail);
  }

  /** What is left of the line behind all fields. */
  function TailTokens(tail: string): seq<Token>
  {
    Tokens(if tail == "" then "" else tail[1..])
  }

  /** The directives convert as many tokens, with these results, and leave the rest to the rest. */
  ghost predicate Scans(ds: string, ts: seq<Token>, slots: seq<Slot>, ds': string, ts': seq<Token>)
  {
    Converted(ds, ts) == |slots| + Converted(ds', ts') && Stored(ds, ts) == slots + Stored(ds', ts')
  }

  lemma ScansCons(d: char, t: Token, ds: string, ts: seq<Token>, slots: seq<Slot>, ds': string, ts': seq<Token>)
    requires Convert(d, t).0 && Scans(ds, ts, slots, ds', ts')
    ensures Scans([d] + ds, [t] + ts, [Convert(d, t).1] + slots, ds', ts')
  {
    assert ([d] + ds)[1..] == ds && ([t] + ts)[1..] == ts;
    assert [Convert(d, t).1] + (slots + Stored(ds', ts')) == ([Convert(d, t).1] + slots) + Stored(ds', ts');
  }

  lemma ScansNone(ds: string, ts: seq<Token>)
    ensures Scans(ds, ts, [], ds, ts)
  {
  }

  lemma Associates(a: string, b: string, c: string)
    ensures (a + b) + c == a + (b + c)
  {
  }

  lemma LettersFirst(fs: seq<Field>, ds: string)
    requires fs != []
    ensures Letters(fs) + ds == [Letter(fs[0])] + (Letters(fs[1..]) + ds)
  {
    Associates([Letter(fs[0])], Letters(fs[1..]), ds);
  }

  lemma OneLeft(fs: seq<Field>, ds: string)
    requires |fs| == 1
    ensures Letters(fs[1..]) + ds == ds && Slots(fs[1..]) == []
  {
    assert fs[1..] == [];
  }

  lemma {:induction false} FieldsScan(fs: seq<Field>, gap: string, tail: string, ds: string)
    requires fs != [] && AllPrintable(fs, tail) && AllBlanks(gap)
    ensures Scans(Letters(fs) + ds, Tokens(PrintFields(fs, gap, tail)), Slots(fs), ds, TailTokens(tail))
  {
    var f, left := fs[0], Tokens(Behind(fs, gap, tail));
    if |fs| == 1 {
      OneLeft(fs, ds);
      ScansNone(ds, TailTokens(tail));
    } else {
      FieldsScan(fs[1..], gap, tail, ds);
    }
    LettersFirst(fs, ds);
    FirstToken(fs, gap, tail);
    FieldConverts(f);
    ScansCons(Letter(f), Token(Text(f), f.Missing?), Letters(fs[1..]) + ds, left, Slots(fs[1..]), ds, TailTokens(tail));
  }

  lemma BlankScans(s: string)
    requires s != "" && !IsDash(s)
    ensures Tokens(" " + s) == Tokens(s)
  {
    assert (" " + s)[1..] == s;
    assert SkipWs(" " + s) == SkipWs(s);
  }

  // ----- no two commas meet -----

  lemma JoinNoAdjacent(a: string, b: string)
    requires NoAdjacentCommas(a) && NoAdjacentCommas(b)
    requires a != "" && b != "" ==> !(Last(a) == ',' && b[0] == ',')
    ensures NoAdjacentCommas(a + b)
  {
    var s := a + b;
    forall i | 0 <= i < |s| - 1 ensures !(s[i] == ',' && s[i + 1] == ',') {
      if i + 1 < |a| {
        assert s[i] == a[i] && s[i + 1] == a[i + 1];
      } else if i + 1 == |a| {
        assert s[i] == Last(a) && s[i + 1] == b[0];
      } else {
        assert s[i] == b[i - |a|] && s[i + 1] == b[i - |a| + 1];
      }
    }
  }

  lemma NoCommas(s: string)
    requires ',' !in s
    ensures NoAdjacentCommas(s)
  {
  }

  lemma PrintNoAdjacent(f: Field, gap: string)
    requires Printable(f) && AllBlanks(gap)
    ensures var s := Print(f, gap); NoAdjacentCommas(s) && s != "" && s[0] != ',' && Last(s) != ','
  {
    NoCommas(gap);
    match f
    case StrField(s) =>
      JoinNoAdjacent(gap, "\"");
      JoinNoAdjacent(gap + "\"", s);
      JoinNoAdjacent(gap + "\"" + s, "\"");
    case Missing(_) =>
    case _ =>
      BareShape(f);
      NoCommas(Text(f));
      JoinNoAdjacent(gap, Text(f));
      assert Last(gap + Text(f)) == Last(Text(f));
  }

  lemma {:induction false} FieldsNoAdjacent(fs: seq<Field>, gap: string, tail: string)
    requires AllPrintable(fs, tail) && AllBlanks(gap)
    ensures var s := PrintFields(fs, gap, tail); NoAdjacentCommas(s) && (fs != [] ==> s != "" && s[0] != ',')
  {
    if fs != [] {
      PrintNoAdjacent(fs[0], gap);
      if |fs| == 1 {
        JoinNoAdjacent(Print(fs[0], gap), tail);
      } else {
        FieldsNoAdjacent(fs[1..], gap, tail);
        JoinNoAdjacent(",", PrintFields(fs[1..], gap, tail));
        JoinNoAdjacent(Print(fs[0], gap), "," + PrintFields(fs[1..], gap, tail));
      }
    }
  }

  lemma {:induction false} AfterColonIs(a: string, b: string)
    requires ':' !in a
    ensures AfterColon(a + [':'] + b) == Some(b)
  {
    var s := a + [':'] + b;
    if a == "" {
      assert s[1..] == b;
    } else {
      assert s[0] == a[0] && s[1..] == a[1..] + [':'] + b;
      assert a == [a[0]] + a[1..];
      AfterColonIs(a[1..], b);
    }
  }

  // ----- the line -----

  function LineOf(prefix: string, fs: seq<Field>, gap: string, tail: string): string
  {
    prefix + ":" + " " + PrintFields(fs, gap, tail)
  }

  lemma BodyOf(prefix: string, fs: seq<Field>, gap: string, tail: string)
    requires ':' !in prefix && AllPrintable(fs, tail) && AllBlanks(gap)
    ensures AfterColon(Collapse(LineOf(prefix, fs, gap, tail))) == Some(" " + PrintFields(fs, gap, tail))
  {
    var body := " " + PrintFields(fs, gap, tail);
    assert LineOf(prefix, fs, gap, tail) == prefix + [':'] + body;
    FieldsNoAdjacent(fs, gap, tail);
    JoinNoAdjacent(" ", PrintFields(fs, gap, tail));
    CollapseAround(prefix, ':', body);
    CollapseFixed(body);
    CollapseShape(prefix);
    AfterColonIs(Collapse(prefix), body);
  }

  /** The fields of a line, with blanks in front of each and anything behind a comma after the
      last, and a format with a directive for each and anything behind: every field is given back
      to its own variable, and then the scan goes on with what is left of both. */
  lemma FieldsRoundTrip(prefix: string, fs: seq<Field>, gap: string, tail: string, seps: seq<string>, after: string)
    requires ':' !in prefix && AllPrintable(fs, tail) && AllBlanks(gap) && Separate(seps, |fs|)
    requires fs != [] && !fs[0].Missing?
    ensures var body := AfterColon(Collapse(LineOf(prefix, fs, gap, tail)));
            body.Some? &&
            var ds, ts := Directives(Format(fs, seps) + after), Tokens(body.value);
            Converted(ds, ts) == |fs| + Converted(Directives(after), TailTokens(tail)) &&
            Stored(ds, ts) == Slots(fs) + Stored(Directives(after), TailTokens(tail))
  {
    BodyOf(prefix, fs, gap, tail);
    FormatDirectives(Letters(fs), seps, after);
    FieldsScan(fs, gap, tail, Directives(after));
    Lengths(fs);
    FirstToken(fs, gap, tail);
    BlankScans(PrintFields(fs, gap, tail));
  }

  // ----- where the scan ends -----

  ghost predicate NoNumber(t: string, base: int)
  {
    t == "" || (!IsBaseDigit(t[0], base) && !IsSpace(t[0]) && t[0] != '+' && t[0] != '-')
  }

  /** A directive that does not take the field. */
  ghost predicate Refuses(d: char, f: Field)
  {
    Printable(f) && !f.Missing? &&
    match d
    case 'd' => NoNumber(Text(f), 10)
    case 'x' => NoNumber(Text(f), 16)
    case 'b' => NoNumber(Text(f), 10) || (f.IntField? && f.n != 0 && f.n != 1)
    case 's' => false
    case _ => true
  }

  /** The next directive does not take the next field, which is f with `more` behind it. */
  ghost predicate Refused(after: string, gap: string, f: Field, more: string, tail: string)
  {
    |after| > 1 && after[0] == '%' && Refuses(after[1], f) && AllBlanks(gap) && (more != "" ==> more[0] == ',') &&
    tail == "," + (Print(f, gap) + more)
  }

  lemma RefusesConversion(d: char, f: Field)
    requires Refuses(d, f)
    ensures Convert(d, Token(Text(f), false)) == (false, if d == 'd' || d == 'x' then IntOut(0) else Untouched)
  {
    var t := Text(f);
    assert t != "" ==> [t[0]][0] == t[0];
    assert "" + "" + t == t;
    match d
    case 'd' => NothingReads("", "", t, 10, false);
    case 'x' => NothingReads("", "", t, 16, true);
    case 'b' => if NoNumber(t, 10) { NothingReads("", "", t, 10, false); } else { PrintedIntReads(f.n); }
    case _ =>
  }

  /** The scan ends there: at the end of the format, at the end of the line, or at a directive
      that does not take its field, whose variable is then 0 if it is an int and untouched
      otherwise. */
  lemma ScanEnds(after: string, gap: string, f: Field, more: string, tail: string)
    ensures FormatStops(after) ==> Directives(after) == ""
    ensures tail == "" ==> TailTokens(tail) == []
    ensures Refused(after, gap, f, more, tail) ==>
              Converted(Directives(after), TailTokens(tail)) == 0 && Directives(after)[0] == after[1] &&
              TailTokens(tail) != [] && !TailTokens(tail)[0].dash &&
              Stored(Directives(after), TailTokens(tail)) ==
              [if after[1] == 'd' || after[1] == 'x' then IntOut(0) else Untouched]
  {
    if Refused(after, gap, f, more, tail) {
      assert tail[1..] == Print(f, gap) + more;
      FieldIsToken(f, gap, more);
      RefusesConversion(after[1], f);
    }
  }

  lemma HoldsFront(b: seq<char>, slots: seq<Scanf.Slot>, specs: seq<Slot>, more: seq<Slot>, limit: nat)
    requires Scanf.AllHold(b, slots, specs + more, limit)
    ensures |slots| == |specs| + |more| && Scanf.AllHold(b, slots[..|specs|], specs, limit)
  {
    forall i | 0 <= i < |specs| ensures Scanf.HoldsAt(b, slots[..|specs|], specs, limit, i) {
      assert Scanf.HoldsAt(b, slots, specs + more, limit, i);
    }
  }

  lemma ScanAccepts(prefix: string, fs: seq<Field>, gap: string, tail: string, seps: seq<string>, after: string,
                    f: Field, more: string)
    requires ':' !in prefix && AllPrintable(fs, tail) && AllBlanks(gap) && Separate(seps, |fs|)
    requires fs != [] && !fs[0].Missing?
    requires FormatStops(after) || tail == "" || Refused(after, gap, f, more, tail)
    ensures var body := AfterColon(Collapse(LineOf(prefix, fs, gap, tail)));
            body.Some? &&
            var ds, ts := Directives(Format(fs, seps) + after), Tokens(body.value);
            Converted(ds, ts) == |fs| && StaysInFormat(ds, ts) &&
            Stored(ds, ts) == Slots(fs) + Stored(Directives(after), TailTokens(tail))
  {
    FieldsRoundTrip(prefix, fs, gap, tail, seps, after);
    ScanEnds(after, gap, f, more, tail);
    FormatDirectives(Letters(fs), seps, after);
    BodyOf(prefix, fs, gap, tail);
    FirstToken(fs, gap, tail);
    BlankScans(PrintFields(fs, gap, tail));
    TokensBehind(fs, gap, tail);
  }

  /** Behind the tokens of the fields come those of the rest. */
  lemma {:induction false} TokensBehind(fs: seq<Field>, gap: string, tail: string)
    requires fs != [] && AllPrintable(fs, tail) && AllBlanks(gap)
    ensures var ts := Tokens(PrintFields(fs, gap, tail)); |ts| >= |fs| && ts[|fs|..] == TailTokens(tail)
  {
    FirstToken(fs, gap, tail);
    var ts := Tokens(PrintFields(fs, gap, tail));
    if |fs| == 1 {
      assert ts[1..] == TailTokens(tail);
    } else {
      TokensBehind(fs[1..], gap, tail);
      assert ts[1..] == Tokens(PrintFields(fs[1..], gap, tail));
      assert ts[|fs|..] == ts[1..][|fs| - 1..];
    }
  }

  /** The same for the scanner itself: `at_tok_scanf`, run on such a line within its limit,
      returns the number of fields in front of where the scan ends, and leaves every one of them
      in its variable. */
  method ScanPrinted(t: Scanf.AtTok, prefix: string, fs: seq<Field>, gap: string, tail: string, seps: seq<string>,
                     after: string, ghost f: Field, ghost more: string)
      returns (n: nat, slots: seq<Scanf.Slot>)
    requires t.Valid() && ':' !in prefix && AllPrintable(fs, tail) && AllBlanks(gap) && Separate(seps, |fs|)
    requires fs != [] && !fs[0].Missing? && NulFree(Format(fs, seps) + after)
    requires FormatStops(after) || tail == "" || Refused(after, gap, f, more, tail)
    requires NulFree(LineOf(prefix, fs, gap, tail)) && |LineOf(prefix, fs, gap, tail)| < 256
    modifies t.sLine
    ensures t.Valid() && n == |fs| <= |slots| && Scanf.AllHold(t.sLine[..], slots[..n], Slots(fs), 1024)
  {
    ScanAccepts(prefix, fs, gap, tail, seps, after, f, more);
    n, slots := t.AtTokScanf(Some(LineOf(prefix, fs, gap, tail)), Format(fs, seps) + after);
    Lengths(fs);
    HoldsFront(t.sLine[..], slots, Slots(fs), Stored(Directives(after), TailTokens(tail)), 1024);
  }
}
