/** The band lists: `fmt_bands2json`, which turns the modem's list into prefixed JSON strings,
    and `parse_bands_json` with `removePrefix`, which turns them back. */
module Bands {
  import opened CText
  import opened Strtok

  const MAX_STRING_LENGTH: nat := 160
  const CLEANED_SIZE: nat := 320
  const MAX_TOKEN_LENGTH: nat := 10

  /** The string without the characters of `drop`. */
  function Strip(s: string, drop: string): string
  {
    if s == "" then "" else (if s[0] in drop then "" else [s[0]]) + Strip(s[1..], drop)
  }

  lemma {:induction false} StripConcat(a: string, b: string, drop: string)
    ensures Strip(a + b, drop) == Strip(a, drop) + Strip(b, drop)
  {
    if a == "" {
      assert a + b == b;
    } else {
      assert (a + b)[0] == a[0] && (a + b)[1..] == a[1..] + b;
      StripConcat(a[1..], b, drop);
    }
  }

  /** Character by character. */
  lemma StripSnoc(s: string, c: char, drop: string)
    ensures Strip(s + [c], drop) == Strip(s, drop) + if c in drop then "" else [c]
  {
    StripConcat(s, [c], drop);
    assert [c][1..] == "";
  }

  /** The `src`/`dst` loop: `dst` never overtakes `src`. */
  method StripInPlace(a: array<char>, drop: string, ghost s: string)
    requires StringAt(a[..], 0, s)
    modifies a
    ensures StringAt(a[..], 0, Strip(s, drop))
    ensures |Strip(s, drop)| <= |s| && forall k :: |s| < k < a.Length ==> a[k] == old(a[k])
  {
    var src, dst := 0, 0;
    assert forall k :: 0 <= k < |s| ==> a[k] == a[..][0..|s|][k] == s[k];
    assert s[..0] == "";
    while a[src] != NUL
      invariant 0 <= dst <= src <= |s| < a.Length
      invariant forall k :: src <= k < |s| ==> a[k] == s[k]
      invariant a[|s|] == NUL && forall k :: |s| < k < a.Length ==> a[k] == old(a[k])
      invariant a[..dst] == Strip(s[..src], drop) && NulFree(a[..dst])
      decreases |s| - src
    {
      assert s[..src + 1] == s[..src] + [s[src]];
      StripConcat(s[..src], [s[src]], drop);
      ghost var done := a[..dst];
      if a[src] !in drop {
        a[dst] := a[src];
        dst := dst + 1;
        assert a[..dst] == done + [s[src]];
      } else {
        assert done + "" == done;
      }
      src := src + 1;
    }
    a[dst] := NUL;
    assert s[..src] == s;
  }

  // ----- set: JSON to list -----

  datatype Item = Str(s: string) | Other
  datatype Doc = Doc(lte: Option<seq<Item>>, nr5g: Option<seq<Item>>)

  /** A string of the array, behind a colon unless it is the first element. */
  function Piece(x: Item, first: bool): string
  {
    if x.Other? then "" else (if first then "" else ":") + x.s
  }

  function Joined(items: seq<Item>): string
  {
    if items == [] then "" else Joined(items[..|items| - 1]) + Piece(Last(items), |items| == 1)
  }

  /** `strncat(dst, src, MAX_STRING_LENGTH - strlen(dst) - 1)`. */
  method Append(dst: array<char>, src: string, ghost s: string)
    requires dst.Length == MAX_STRING_LENGTH && StringAt(dst[..], 0, s) && NulFree(src)
    modifies dst
    ensures StringAt(dst[..], 0, Take(s + src, MAX_STRING_LENGTH - 1))
  {
    var len := 0;
    assert forall k :: 0 <= k < |s| ==> dst[k] == dst[..][0..|s|][k] == s[k];
    while dst[len] != NUL
      invariant len <= |s|
      decreases |s| - len
    {
      len := len + 1;
    }
    var room := MAX_STRING_LENGTH - len - 1;
    var i := 0;
    while i < room && i < |src|
      invariant 0 <= i <= room && i <= |src| && len == |s|
      invariant dst[..len + i] == s + src[..i]
    {
      dst[len + i] := src[i];
      i := i + 1;
    }
    dst[len + i] := NUL;
    assert s + src[..i] == Take(s + src, MAX_STRING_LENGTH - 1);
  }

  lemma TakeTwice(a: string, b: string, n: nat)
    ensures Take(Take(a, n) + b, n) == Take(a + b, n)
  {
  }

  ghost predicate Texts(items: seq<Item>)
  {
    forall i :: 0 <= i < |items| && items[i].Str? ==> NulFree(items[i].s)
  }

  /** One element of an array: nothing unless it is a string. */
  method AppendItem(dst: array<char>, item: Item, first: bool, ghost s: string)
    requires dst.Length == MAX_STRING_LENGTH && Texts([item])
    requires StringAt(dst[..], 0, Take(s, MAX_STRING_LENGTH - 1))
    modifies dst
    ensures StringAt(dst[..], 0, Take(s + Piece(item, first), MAX_STRING_LENGTH - 1))
  {
    assert [item][0] == item;
    if item.Other? {
      assert s + "" == s;
      return;
    }
    if first {
      Append(dst, item.s, Take(s, MAX_STRING_LENGTH - 1));
    } else {
      Append(dst, ":", Take(s, MAX_STRING_LENGTH - 1));
      Append(dst, item.s, Take(Take(s, MAX_STRING_LENGTH - 1) + ":", MAX_STRING_LENGTH - 1));
    }
    AppendedPiece(s, item.s, MAX_STRING_LENGTH - 1);
  }

  lemma AppendedPiece(s: string, x: string, n: nat)
    ensures Take(Take(s, n) + x, n) == Take(s + ("" + x), n)
    ensures Take(Take(Take(s, n) + ":", n) + x, n) == Take(s + (":" + x), n)
  {
    Associate(s, x);
    TakeTwice(s, x, n);
    TakeTwice(s, ":", n);
    TakeTwice(s + ":", x, n);
  }

  lemma Associate(s: string, x: string)
    ensures "" + x == x && s + (":" + x) == (s + ":") + x
  {
  }

  /** One array of the document, appended to an empty buffer. */
  method AppendItems(dst: array<char>, items: seq<Item>)
    requires dst.Length == MAX_STRING_LENGTH && dst[0] == NUL && Texts(items)
    modifies dst
    ensures StringAt(dst[..], 0, Take(Joined(items), MAX_STRING_LENGTH - 1))
  {
    for i := 0 to |items|
      invariant StringAt(dst[..], 0, Take(Joined(items[..i]), MAX_STRING_LENGTH - 1))
    {
      JoinedSnoc(items[..i], items[i]);
      assert items[..i] + [items[i]] == items[..i + 1];
      AppendItem(dst, items[i], i == 0, Joined(items[..i]));
    }
    assert items[..|items|] == items;
  }

  /** One element more: a string is joined on, with a colon before it unless the array was empty,
      and anything else adds nothing. */
  lemma JoinedSnoc(items: seq<Item>, x: Item)
    ensures Joined(items + [x]) == Joined(items) + match x
                                                   case Str(s) => (if items == [] then "" else ":") + s
                                                   case Other => ""
  {
    assert (items + [x])[..|items|] == items;
  }

  function Parsed(items: seq<Item>): string
  {
    Strip(Take(Joined(items), MAX_STRING_LENGTH - 1), "BN")
  }

  /** `parse_bands_json`: a document that does not parse leaves the buffers alone, and a member
      that is no array leaves an empty list. */
  method ParseBandsJson(doc: Option<Doc>, lte: array<char>, nr5g: array<char>)
    requires lte.Length == MAX_STRING_LENGTH == nr5g.Length && lte != nr5g
    requires doc.Some? ==> Texts(doc.value.lte.GetOr([])) && Texts(doc.value.nr5g.GetOr([]))
    modifies lte, nr5g
    ensures doc.None? ==> lte[..] == old(lte[..]) && nr5g[..] == old(nr5g[..])
    ensures doc.Some? ==>
              StringAt(lte[..], 0, Strip(Take(Joined(doc.value.lte.GetOr([])), 159), "BN")) &&
              StringAt(nr5g[..], 0, Strip(Take(Joined(doc.value.nr5g.GetOr([])), 159), "BN"))
  {
    if doc.None? {
      return;
    }
    lte[0] := NUL;
    nr5g[0] := NUL;
    if doc.value.lte.Some? {
      AppendItems(lte, doc.value.lte.value);
    }
    if doc.value.nr5g.Some? {
      AppendItems(nr5g, doc.value.nr5g.value);
    }
    StripInPlace(lte, "BN", Take(Joined(doc.value.lte.GetOr([])), MAX_STRING_LENGTH - 1));
    StripInPlace(nr5g, "BN", Take(Joined(doc.value.nr5g.GetOr([])), MAX_STRING_LENGTH - 1));
  }

  // ----- get: list to JSON -----

  /** `snprintf` of prefix and token into MAX_TOKEN_LENGTH bytes, for each token. */
  function Prefixed(ts: seq<string>, prefix: string): seq<string>
  {
    if ts == [] then [] else [Take(prefix + ts[0], MAX_TOKEN_LENGTH - 1)] + Prefixed(ts[1..], prefix)
  }

  lemma {:induction false} PrefixedEach(ts: seq<string>, prefix: string)
    ensures var ps := Prefixed(ts, prefix);
            |ps| == |ts| && forall i :: 0 <= i < |ts| ==> ps[i] == Take(prefix + ts[i], 9)
  {
    if ts != [] { PrefixedEach(ts[1..], prefix); }
  }

  function Formatted(bandStr: string, prefix: string): seq<string>
  {
    Prefixed(Segments(Strip(Take(bandStr, CLEANED_SIZE - 1), ",-"), ":"), prefix)
  }

  /** The local copy without commas and dashes. */
  method CleanBands(bandStr: string) returns (cleaned: array<char>, ghost text: string)
    requires NulFree(bandStr)
    ensures fresh(cleaned) && text == Strip(Take(bandStr, CLEANED_SIZE - 1), ",-") && StringAt(cleaned[..], 0, text)
  {
    cleaned := new char[CLEANED_SIZE](_ => NUL);
    CopyCut(cleaned, bandStr);
    StripInPlace(cleaned, ",-", Take(bandStr, CLEANED_SIZE - 1));
    text := Strip(Take(bandStr, CLEANED_SIZE - 1), ",-");
  }

  /** `fmt_bands2json`: the strings appended to the JSON array. */
  method FmtBands2Json(bandStr: string, prefix: string) returns (added: seq<string>)
    requires NulFree(bandStr) && NulFree(prefix)
    ensures added == Formatted(bandStr, prefix)
    ensures var ts := Segments(Strip(Take(bandStr, 319), ",-"), ":");
            |added| == |ts| && forall i :: 0 <= i < |ts| ==> added[i] == Take(prefix + ts[i], 9)
  {
    var cleaned;
    ghost var text;
    cleaned, text := CleanBands(bandStr);
    var s := new Scan(cleaned, text);
    ghost var left := Segments(text, ":");
    added := [];
    var token := s.Next(":");
    while token.Some?
      invariant s.Valid() && s.buf == cleaned && fresh(s) && fresh(cleaned)
      invariant if token.Some?
                then left != [] && StringAt(cleaned[..], token.value, left[0]) && Segments(s.Rest(), ":") == left[1..]
                else left == []
      invariant added + Prefixed(left, prefix) == Formatted(bandStr, prefix)
      decreases token.Some?, |s.Rest()|
    {
      var band := CopyString(cleaned, token.value, left[0]);
      added := AddBand(added, prefix, band, left);
      left := left[1..];
      token := s.Next(":");
    }
    assert added + [] == added;
    PrefixedEach(Segments(Strip(Take(bandStr, 319), ",-"), ":"), prefix);
  }

  /** `snprintf` and `json_array_append_new`. */
  method AddBand(added: seq<string>, prefix: string, band: string, ghost left: seq<string>)
      returns (added': seq<string>)
    requires left != [] && left[0] == band
    ensures added' == added + [Take(prefix + band, MAX_TOKEN_LENGTH - 1)]
    ensures added' + Prefixed(left[1..], prefix) == added + Prefixed(left, prefix)
  {
    var withPrefix := Take(prefix + band, MAX_TOKEN_LENGTH - 1);
    assert added + ([withPrefix] + Prefixed(left[1..], prefix)) == (added + [withPrefix]) + Prefixed(left[1..], prefix);
    added' := added + [withPrefix];
  }
}
