/** `at_tok_by_index_scanf`: one segment of a line chosen from the front or from the back. */
module ByIndex {
  import opened CText
  import opened Strtok
  import opened Formats
  import Numbers

  const COPY_SIZE: nat := 1024

  /** The token is the segment behind index - 1 others, or in front of as many for an index
      counted from the back. */
  ghost predicate Chosen(text: string, split: string, index: int, token: string)
  {
    exists pre, post :: Stands(text, split, pre, token, post) && Counted(split, index, pre, post)
  }

  ghost predicate Counted(split: string, index: int, pre: string, post: string)
  {
    if index > 0 then |Segments(pre, split)| == index - 1 else |Segments(post, split)| == -index - 1
  }

  /** Where segment k stands, counted from either end. */
  lemma ChosenAt(text: string, split: string, k: nat)
    requires 1 <= k <= |Segments(text, split)|
    ensures var ts := Segments(text, split);
            Chosen(text, split, k, ts[k - 1]) && Chosen(text, split, k - |ts| - 1, ts[k - 1])
  {
    var ts := Segments(text, split);
    var pre, post := SegmentStands(text, split, k - 1);
    SegmentsAround(text, split, pre, ts[k - 1], post);
    assert |ts| == k - 1 + 1 + |Segments(post, split)|;
    assert Counted(split, k, pre, post) && Counted(split, k - |ts| - 1, pre, post);
  }

  /** No other token is chosen, and none is where there are not as many segments. */
  lemma ChosenIs(text: string, split: string, index: int, token: string)
    requires Chosen(text, split, index, token)
    ensures var ts := Segments(text, split);
            index != 0 && -|ts| <= index <= |ts| && token == ts[if index > 0 then index - 1 else |ts| + index]
  {
    var pre, post :| Stands(text, split, pre, token, post) && Counted(split, index, pre, post);
    SegmentsAround(text, split, pre, token, post);
  }

  /** An index counts from the front as its opposite does from the back: the k-th of n segments is
      also the one at k - n - 1. */
  lemma FromEitherEnd(text: string, split: string, k: int, token: string)
    requires 1 <= k <= |Segments(text, split)|
    ensures Chosen(text, split, k, token) <==> Chosen(text, split, k - |Segments(text, split)| - 1, token)
  {
    var ts := Segments(text, split);
    ChosenAt(text, split, k);
    if Chosen(text, split, k, token) { ChosenIs(text, split, k, token); }
    if Chosen(text, split, k - |ts| - 1, token) { ChosenIs(text, split, k - |ts| - 1, token); }
  }

  /** -1 chooses what is behind the last delimiter. */
  lemma LastIsChosen(front: string, delim: char, token: string, split: string)
    requires delim in split && token != "" && NoneIn(token, split)
    ensures Chosen(front + [delim] + token, split, -1, token) && |Segments(front + [delim] + token, split)| >= 1
  {
    var pre := front + [delim];
    var text := pre + token;
    assert text == pre + token + "" && Last(pre) == delim;
    assert Stands(text, split, pre, token, "") && Counted(split, -1, pre, "");
    SegmentsAround(text, split, pre, token, "");
  }

  /** First pass: counts the segments of a fresh copy. */
  method Count(copy: array<char>, split: string, ghost text: string) returns (total: nat)
    requires StringAt(copy[..], 0, text) && NulFree(split)
    modifies copy
    ensures total == |Segments(text, split)|
  {
    ghost var ts := Segments(text, split);
    var s := new Scan(copy, text);
    var tok := s.Next(split);
    total := 0;
    while tok.Some?
      invariant s.Valid() && s.buf == copy
      invariant if tok.Some? then total < |ts| && Segments(s.Rest(), split) == ts[total + 1..] else total == |ts|
      decreases tok.Some?, |s.Rest()|
    {
      total := total + 1;
      tok := s.Next(split);
    }
  }

  /** Second pass: walks to the chosen segment of a fresh copy. */
  method Walk(copy: array<char>, split: string, target: nat, ghost text: string) returns (token: string)
    requires StringAt(copy[..], 0, text) && NulFree(split)
    requires 1 <= target <= |Segments(text, split)|
    modifies copy
    ensures token == Segments(text, split)[target - 1]
  {
    ghost var ts := Segments(text, split);
    var s := new Scan(copy, text);
    var tok := s.Next(split);
    var cur := 1;
    while tok.Some? && cur != target
      invariant s.Valid() && s.buf == copy
      invariant 1 <= cur <= target && tok.Some?
      invariant StringAt(copy[..], tok.value, ts[cur - 1])
      invariant Segments(s.Rest(), split) == ts[cur..]
      decreases target - cur
    {
      tok := s.Next(split);
      cur := cur + 1;
    }
    token := CopyString(copy, tok.value, ts[target - 1]);
  }

  /** The selection from the first 1023 characters of the line: the chosen segment, or -2 exactly
      when there are not so many. */
  method Select(line: string, split: string, index: int) returns (code: int, token: string)
    requires NulFree(line) && NulFree(split)
    ensures var text := Take(line, 1023);
            var total := |Segments(text, split)|;
            if index != 0 && -total <= index <= total then code == 0 && Chosen(text, split, index, token)
            else code == -2 && token == ""
  {
    if index == 0 {
      return -2, "";
    }
    ghost var text := Take(line, 1023);
    var copy := new char[COPY_SIZE](_ => NUL);
    CopyCut(copy, line);
    var total := Count(copy, split, text);
    var target := if index >= 0 then index else total + index + 1;
    if target <= 0 || target > total {
      return -2, "";
    }
    CopyCut(copy, line);
    token := Walk(copy, split, target, text);
    ChosenAt(text, split, target);
    code := 0;
  }

  // ----- the format -----

  /** A variable of the caller: NULL, or given; a string is copied into memory that may not be
      there. */
  datatype Arg = Null | Given(memory: bool)

  /** What a directive leaves in its variable; what `sscanf` makes of a float is left open. */
  datatype Slot = Untouched | IntOut(n: int) | FloatOut(source: string) | StrOut(text: string) | NoString

  /** A directive with a variable it can use. */
  ghost predicate Usable(d: char, arg: Arg)
  {
    arg.Given? && (d == 'd' || d == 'f' || (d == 's' && arg.memory))
  }

  function Convert(d: char, token: string): Slot
  {
    match d
    case 'd' => var n := Numbers.TokenInt(token, 10, false); if n.Some? then IntOut(n.value) else Untouched
    case 'f' => FloatOut(token)
    case _ => StrOut(token)
  }

  /** Every directive is applied to the same token, up to the first whose variable is NULL, that
      is unknown, or that finds no memory. */
  ghost predicate Applied(fmt: string, args: seq<Arg>, token: string, code: int, slots: seq<Slot>)
  {
    var ds := Directives(fmt);
    var n := |slots| - if code == -1 then 1 else 0;
    0 <= n <= |ds| <= |args| &&
    (forall k :: 0 <= k < n ==> Usable(ds[k], args[k]) && slots[k] == Convert(ds[k], token)) &&
    if n == |ds| then code == if Stray(fmt) then -2 else 0
    else if args[n].Null? then code == -2
    else if ds[n] != 'd' && ds[n] != 'f' && ds[n] != 's' then code == -3
    else code == -1 && !Usable(ds[n], args[n]) && slots[n] == NoString
  }

  /** The loop over the format, with the chosen token. */
  method Apply(fmt: string, args: seq<Arg>, token: string) returns (code: int, slots: seq<Slot>)
    requires NulFree(fmt) && |Directives(fmt)| <= |args|
    ensures Applied(fmt, args, token, code, slots)
  {
    ghost var ds := Directives(fmt);
    var p := 0;
    code, slots := 0, [];
    FormatStarts(fmt);
    while p < |fmt|
      invariant FormatAt(fmt, p, |slots|)
      invariant forall k :: 0 <= k < |slots| ==> Usable(ds[k], args[k]) && slots[k] == Convert(ds[k], token)
      decreases |fmt| - p
    {
      FormatStep(fmt, p, |slots|);
      if fmt[p] == ',' || fmt[p] == ' ' {
        p := p + 1;
        continue;
      }
      if fmt[p] != '%' {
        return -2, slots;
      }
      p := p + 1;
      var arg := args[|slots|];
      if arg.Null? {
        return -2, slots;
      }
      var d := if p < |fmt| then fmt[p] else NUL;
      if d != 'd' && d != 'f' && d != 's' {
        return -3, slots;
      }
      if d == 's' && !arg.memory {
        return -1, slots + [NoString];
      }
      slots := slots + [Convert(d, token)];
      p := p + 1;
    }
    FormatEnds(fmt, |slots|);
  }

  /** `at_tok_by_index_scanf`: -1 for a missing argument; -2 if there is no such segment; and
      otherwise what the format gives. */
  method AtTokByIndexScanf(line: Option<string>, split: Option<string>, index: int, fmt: Option<string>, args: seq<Arg>)
    returns (code: int, slots: seq<Slot>)
    requires (line.Some? ==> NulFree(line.value)) && (split.Some? ==> NulFree(split.value))
    requires fmt.Some? ==> NulFree(fmt.value) && |Directives(fmt.value)| <= |args|
    ensures line.None? || split.None? || fmt.None? ==> code == -1 && slots == []
    ensures line.Some? && split.Some? && fmt.Some? ==>
              var text := Take(line.value, 1023);
              var total := |Segments(text, split.value)|;
              if index != 0 && -total <= index <= total
              then exists token ::
                     Chosen(text, split.value, index, token) && Applied(fmt.value, args, token, code, slots)
              else code == -2 && slots == []
  {
    if line.None? || split.None? || fmt.None? {
      return -1, [];
    }
    var token;
    code, token := Select(line.value, split.value, index);
    if code != 0 {
      return code, [];
    }
    code, slots := Apply(fmt.value, args, token);
  }
  // ----- what the directives do -----

  /** What one of the three directives leaves in a variable that it can use. */
  ghost predicate Leaves(d: char, token: string, slot: Slot)
  {
    (d == 's' && slot == StrOut(token)) || (d == 'f' && slot == FloatOut(token)) ||
    (d == 'd' && match Numbers.TokenInt(token, 10, false)
                 case Some(n) => slot == IntOut(n)
                 case None => slot == Untouched)
  }

  ghost predicate AllUsable(ds: string, args: seq<Arg>)
  {
    |ds| <= |args| && forall k :: 0 <= k < |ds| ==> Usable(ds[k], args[k])
  }

  ghost predicate AllLeft(ds: string, token: string, slots: seq<Slot>)
  {
    |ds| == |slots| && forall k :: 0 <= k < |ds| ==> Leaves(ds[k], token, slots[k])
  }

  /** When every directive finds its variable, each leaves what it makes of the token in its own;
      0 is returned, or -2 when a stray character follows. */
  lemma AllApplied(ds: string, seps: seq<string>, after: string, args: seq<Arg>, token: string, code: int,
                   slots: seq<Slot>)
    requires Separate(seps, |ds|) && FormatStops(after) && AllUsable(ds, args)
    requires Applied(FormatOf(ds, seps) + after, args, token, code, slots)
    ensures AllLeft(ds, token, slots) && code == if after == "" then 0 else -2
  {
    DirectivesStop(ds, seps, after);
  }

  /** The first directive that does not: without a variable -2 is returned, for an unknown one -3,
      and without memory for a string -1. */
  lemma FirstRefused(ds: string, d: char, rest: string, seps: seq<string>, args: seq<Arg>, token: string, code: int,
                     slots: seq<Slot>)
    requires Separate(seps, |ds| + 1 + |rest|) && |ds| + 1 + |rest| <= |args|
    requires AllUsable(ds, args) && !Usable(d, args[|ds|])
    requires Applied(FormatOf(ds + [d] + rest, seps), args, token, code, slots)
    ensures code == if args[|ds|].Null? then -2 else if d == 's' then -1 else -3
    ensures |slots| >= |ds| && AllLeft(ds, token, slots[..|ds|]) &&
            slots[|ds|..] == if code == -1 then [NoString] else []
  {
    var all := ds + [d] + rest;
    var n := |slots| - if code == -1 then 1 else 0;
    DirectivesStop(all, seps, "");
    assert FormatOf(all, seps) + "" == FormatOf(all, seps);
    assert all[|ds|] == d && forall j :: 0 <= j < |ds| ==> all[j] == ds[j];
  }

  /** What is behind the last delimiter of a line, as a string. */
  method LastPart(line: string, ghost front: string, delim: char, ghost part: string, split: string)
      returns (code: int, slots: seq<Slot>)
    requires line == front + [delim] + part && |line| < 1024 && NulFree(line) && NulFree(split)
    requires delim in split && part != "" && NoneIn(part, split)
    ensures code == 0 && slots == [StrOut(part)]
  {
    LastIsChosen(front, delim, part, split);
    OneString();
    code, slots := AtTokByIndexScanf(Some(line), Some(split), -1, Some("%s"), [Given(true)]);
    ghost var token :| Chosen(line, split, -1, token) && Applied("%s", [Given(true)], token, code, slots);
    ChosenIs(line, split, -1, token);
    ChosenIs(line, split, -1, part);
    AllApplied("s", [""], "", [Given(true)], token, code, slots);
    assert Leaves('s', part, slots[0]);
  }

  lemma OneString()
    ensures NulFree("%s") && Directives("%s") == "s" && FormatOf("s", [""]) + "" == "%s"
  {
    assert "%s"[2..] == "";
  }

  /** The name of the handler in a request path. */
  method HandlerName(path: string) returns (code: int, slots: seq<Slot>)
    requires path == "/api/get/lockband"
    ensures code == 0 && slots == [StrOut("lockband")]
  {
    assert path == "/api/get" + ['/'] + "lockband";
    code, slots := LastPart(path, "/api/get", '/', "lockband", "/");
  }
}
