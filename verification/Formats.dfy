/** Formats of the scanning functions: directives behind '%', separated by commas and blanks. */
module Formats {
  import opened CText

  /** The directives in front of the first character that belongs to none; a '%' at the end of
      the format has the terminator for its directive. */
  function Directives(fmt: string): string
  {
    if fmt == "" then ""
    else if fmt[0] == ',' || fmt[0] == ' ' then Directives(fmt[1..])
    else if fmt[0] != '%' then ""
    else if |fmt| == 1 then [NUL]
    else [fmt[1]] + Directives(fmt[2..])
  }

  /** There is such a character. */
  predicate Stray(fmt: string)
  {
    fmt != "" &&
    if fmt[0] == ',' || fmt[0] == ' ' then Stray(fmt[1..])
    else fmt[0] != '%' || (|fmt| > 1 && Stray(fmt[2..]))
  }

  /** The position in the format, and how many directives are behind it. */
  ghost predicate FormatAt(fmt: string, p: nat, n: nat)
  {
    p <= |fmt| && n <= |Directives(fmt)| &&
    Directives(fmt[p..]) == Directives(fmt)[n..] && Stray(fmt[p..]) == Stray(fmt)
  }

  lemma FormatStep(fmt: string, p: nat, n: nat)
    requires p < |fmt| && FormatAt(fmt, p, n)
    ensures if fmt[p] == ',' || fmt[p] == ' ' then FormatAt(fmt, p + 1, n)
            else if fmt[p] != '%' then n == |Directives(fmt)| && Stray(fmt)
            else n < |Directives(fmt)| && Directives(fmt)[n] == (if p + 1 < |fmt| then fmt[p + 1] else NUL) &&
                 (p + 1 < |fmt| ==> FormatAt(fmt, p + 2, n + 1))
  {
    assert fmt[p..][1..] == fmt[p + 1..];
    if p + 1 < |fmt| { assert fmt[p..][2..] == fmt[p + 2..]; }
    var ds := Directives(fmt);
    assert n < |ds| ==> ds[n..][1..] == ds[n + 1..] && ds[n..][0] == ds[n];
  }

  lemma FormatStarts(fmt: string)
    ensures FormatAt(fmt, 0, 0)
  {
    assert fmt[0..] == fmt && Directives(fmt)[0..] == Directives(fmt);
  }

  lemma FormatEnds(fmt: string, n: nat)
    requires FormatAt(fmt, |fmt|, n)
    ensures n == |Directives(fmt)| && !Stray(fmt)
  {
    assert fmt[|fmt|..] == "";
  }
  // ----- formats put together -----

  ghost predicate Separates(sep: string)
  {
    forall i :: 0 <= i < |sep| ==> sep[i] == ',' || sep[i] == ' '
  }

  /** A separator, perhaps empty, for each directive. */
  ghost predicate Separate(seps: seq<string>, n: nat)
  {
    |seps| == n && forall i :: 0 <= i < |seps| ==> Separates(seps[i])
  }

  /** The format of these directives, each with its separator behind it. */
  function FormatOf(ds: string, seps: seq<string>): string
    requires |ds| == |seps|
  {
    if ds == "" then "" else "%" + [ds[0]] + (seps[0] + FormatOf(ds[1..], seps[1..]))
  }

  /** The format is at its end or at a character that belongs to no directive. */
  ghost predicate FormatStops(after: string)
  {
    after == "" || (after[0] != ',' && after[0] != ' ' && after[0] != '%')
  }

  lemma {:induction false} SeparatorSkipped(sep: string, fmt: string)
    requires Separates(sep)
    ensures Directives(sep + fmt) == Directives(fmt) && Stray(sep + fmt) == Stray(fmt)
  {
    if sep == "" {
      assert sep + fmt == fmt;
    } else {
      assert (sep + fmt)[0] == sep[0] && (sep + fmt)[1..] == sep[1..] + fmt;
      SeparatorSkipped(sep[1..], fmt);
    }
  }

  lemma DirectiveFirst(d: char, fmt: string)
    ensures Directives("%" + [d] + fmt) == [d] + Directives(fmt) && Stray("%" + [d] + fmt) == Stray(fmt)
  {
    assert ("%" + [d] + fmt)[2..] == fmt;
  }

  lemma DirectiveJoins(d: char, sep: string, more: string, after: string)
    ensures "%" + [d] + (sep + more) + after == "%" + [d] + (sep + (more + after))
  {
  }

  /** The directives of a format are the letters behind its '%', with any commas and blanks in
      between, and then those of what follows. */
  lemma {:induction false} FormatDirectives(ds: string, seps: seq<string>, after: string)
    requires Separate(seps, |ds|)
    ensures Directives(FormatOf(ds, seps) + after) == ds + Directives(after)
    ensures Stray(FormatOf(ds, seps) + after) == Stray(after)
  {
    if ds == "" {
      assert FormatOf(ds, seps) + after == after;
    } else {
      var rest := FormatOf(ds[1..], seps[1..]);
      DirectiveJoins(ds[0], seps[0], rest, after);
      DirectiveFirst(ds[0], seps[0] + (rest + after));
      SeparatorSkipped(seps[0], rest + after);
      FormatDirectives(ds[1..], seps[1..], after);
      assert [ds[0]] + (ds[1..] + Directives(after)) == ds + Directives(after);
    }
  }

  /** There are no more at a stray character. */
  lemma DirectivesStop(ds: string, seps: seq<string>, after: string)
    requires Separate(seps, |ds|) && FormatStops(after)
    ensures Directives(FormatOf(ds, seps) + after) == ds && (Stray(FormatOf(ds, seps) + after) <==> after != "")
  {
    FormatDirectives(ds, seps, after);
    assert ds + "" == ds;
  }
}
