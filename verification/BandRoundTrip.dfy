/** When a band list survives being read from the modem, shown as JSON and written back. */
module BandRoundTrip {
  import opened CText
  import opened Strtok
  import opened Bands

  ghost predicate IsBand(d: string)
  {
    d != "" && forall i :: 0 <= i < |d| ==> IsDigit(d[i])
  }

  ghost predicate AllBands(ds: seq<string>)
  {
    forall i :: 0 <= i < |ds| ==> IsBand(ds[i])
  }

  /** The list in the modem's own form. */
  function Join(xs: seq<string>): string
  {
    if xs == [] then "" else Join(xs[..|xs| - 1]) + (if |xs| == 1 then "" else ":") + Last(xs)
  }

  function WithPrefix(ds: seq<string>, prefix: string): seq<string>
  {
    if ds == [] then [] else WithPrefix(ds[..|ds| - 1], prefix) + [prefix + Last(ds)]
  }

  function Items(xs: seq<string>): seq<Item>
  {
    if xs == [] then [] else Items(xs[..|xs| - 1]) + [Str(Last(xs))]
  }

  /** The list as it comes back. */
  function ThereAndBack(list: string, prefix: string): string
  {
    Parsed(Items(Formatted(list, prefix)))
  }

  // ----- reading a list -----

  lemma {:induction false} SegmentsSnoc(acc: string, s: string, x: string)
    requires x != "" && forall i :: 0 <= i < |x| ==> x[i] !in ":"
    ensures SegmentsFrom(acc, s + (":" + x), ":") == SegmentsFrom(acc, s, ":") + [x]
    decreases |s|
  {
    if s == "" {
      assert s + (":" + x) == ":" + x && (":" + x)[1..] == x;
      SegmentText("", x, "", ":");
      assert x + "" == x && "" + x == x;
    } else {
      assert (s + (":" + x))[1..] == s[1..] + (":" + x);
      SegmentsSnoc(if s[0] in ":" then "" else acc + [s[0]], s[1..], x);
    }
  }

  lemma BandHasNoColon(d: string)
    requires IsBand(d)
    ensures forall i :: 0 <= i < |d| ==> d[i] !in ":" && d[i] !in ",-" && d[i] !in "BN"
  {
  }

  lemma {:induction false} StripNone(s: string, drop: string)
    requires forall i :: 0 <= i < |s| ==> s[i] !in drop
    ensures Strip(s, drop) == s
  {
    if s != "" { StripNone(s[1..], drop); }
  }

  lemma {:induction false} JoinReads(ds: seq<string>)
    requires AllBands(ds)
    ensures Segments(Join(ds), ":") == ds && Strip(Join(ds), ",-") == Join(ds)
    ensures (Join(ds) == "") == (ds == [])
  {
    if ds != [] {
      var p, x := ds[..|ds| - 1], Last(ds);
      JoinReads(p);
      BandHasNoColon(x);
      StripNone(x, ",-");
      assert ds == p + [x];
      if |ds| == 1 {
        assert Join(ds) == x && x + "" == x && "" + x == x;
        SegmentText("", x, "", ":");
      } else {
        assert Join(ds) == Join(p) + (":" + x);
        SegmentsSnoc("", Join(p), x);
        StripNone(":", ",-");
        StripConcat(":", x, ",-");
        StripConcat(Join(p), ":" + x, ",-");
      }
    }
  }

  // ----- printing it back -----

  lemma {:induction false} PrefixedSnoc(ts: seq<string>, x: string, prefix: string)
    ensures Prefixed(ts + [x], prefix) == Prefixed(ts, prefix) + [Take(prefix + x, MAX_TOKEN_LENGTH - 1)]
  {
    if ts == [] {
      assert ts + [x] == [x];
    } else {
      assert (ts + [x])[1..] == ts[1..] + [x];
      PrefixedSnoc(ts[1..], x, prefix);
    }
  }

  lemma {:induction false} JoinedItems(xs: seq<string>)
    ensures Joined(Items(xs)) == Join(xs) && |Items(xs)| == |xs|
  {
    if xs != [] {
      var p := xs[..|xs| - 1];
      JoinedItems(p);
      JoinedSnoc(Items(p), Str(Last(xs)));
    }
  }

  /** The bands after `snprintf`, which keeps eight of their digits. */
  function Cut(ds: seq<string>): seq<string>
  {
    if ds == [] then [] else Cut(ds[..|ds| - 1]) + [Take(Last(ds), MAX_TOKEN_LENGTH - 2)]
  }

  lemma StripBand(d: string, prefix: string)
    requires IsBand(d) && (prefix == "B" || prefix == "N")
    ensures var t := Take(prefix + d, MAX_TOKEN_LENGTH - 1);
            Strip(t, "BN") == Take(d, MAX_TOKEN_LENGTH - 2) && t != "" && IsDigit(Last(t))
  {
    var c := Take(d, MAX_TOKEN_LENGTH - 2);
    assert Take(prefix + d, MAX_TOKEN_LENGTH - 1) == prefix + c;
    BandHasNoColon(d);
    StripNone(c, "BN");
    StripConcat(prefix, c, "BN");
    assert prefix[1..] == "";
    assert Strip(prefix, "BN") == "";
  }

  lemma JoinSnoc(xs: seq<string>, x: string)
    ensures Join(xs + [x]) == Join(xs) + (if xs == [] then "" else ":") + x
  {
    assert (xs + [x])[..|xs|] == xs;
  }

  lemma StripJoinSnoc(xs: seq<string>, x: string, ys: seq<string>, y: string)
    requires Strip(Join(xs), "BN") == Join(ys) && Strip(x, "BN") == y && |xs| == |ys|
    ensures Strip(Join(xs + [x]), "BN") == Join(ys + [y])
  {
    var sep := if xs == [] then "" else ":";
    JoinSnoc(xs, x);
    JoinSnoc(ys, y);
    StripNone(sep, "BN");
    StripConcat(Join(xs), sep, "BN");
    StripConcat(Join(xs) + sep, x, "BN");
  }

  lemma {:induction false} StripJoin(ds: seq<string>, prefix: string)
    requires AllBands(ds) && (prefix == "B" || prefix == "N")
    ensures Strip(Join(Prefixed(ds, prefix)), "BN") == Join(Cut(ds))
    ensures |Prefixed(ds, prefix)| == |ds| == |Cut(ds)|
    ensures ds != [] ==> var j := Join(Prefixed(ds, prefix)); j != "" && IsDigit(Last(j))
  {
    if ds != [] {
      var p, x := ds[..|ds| - 1], Last(ds);
      var t := Take(prefix + x, MAX_TOKEN_LENGTH - 1);
      assert ds == p + [x];
      PrefixedSnoc(p, x, prefix);
      StripJoin(p, prefix);
      StripBand(x, prefix);
      StripJoinSnoc(Prefixed(p, prefix), t, Cut(p), Take(x, MAX_TOKEN_LENGTH - 2));
      JoinSnoc(Prefixed(p, prefix), t);
    }
  }

  ghost predicate AllShort(ds: seq<string>)
  {
    forall i :: 0 <= i < |ds| ==> |ds[i]| <= MAX_TOKEN_LENGTH - 2
  }

  lemma {:induction false} CutLength(ds: seq<string>)
    ensures |Join(Cut(ds))| <= |Join(ds)| && |Cut(ds)| == |ds|
    ensures |Join(Cut(ds))| == |Join(ds)| <==> AllShort(ds)
    ensures AllShort(ds) ==> Cut(ds) == ds
  {
    if ds != [] {
      var p, x := ds[..|ds| - 1], Last(ds);
      assert ds == p + [x];
      CutLength(p);
      var cs := Cut(ds);
      assert cs[..|cs| - 1] == Cut(p);
      if AllShort(ds) {
        assert AllShort(p) by {
          forall i | 0 <= i < |p| ensures |p[i]| <= MAX_TOKEN_LENGTH - 2 { assert p[i] == ds[i]; }
        }
        assert |ds[|ds| - 1]| <= MAX_TOKEN_LENGTH - 2;
      }
    }
  }

  lemma {:induction false} PrefixedShort(ds: seq<string>, prefix: string)
    requires AllShort(ds) && |prefix| == 1
    ensures Prefixed(ds, prefix) == WithPrefix(ds, prefix) && |WithPrefix(ds, prefix)| == |ds|
    ensures |Join(ds)| <= |Join(WithPrefix(ds, prefix))|
  {
    if ds != [] {
      var p, x := ds[..|ds| - 1], Last(ds);
      assert ds == p + [x] && |ds[|ds| - 1]| <= MAX_TOKEN_LENGTH - 2;
      assert forall i :: 0 <= i < |p| ==> p[i] == ds[i];
      PrefixedShort(p, prefix);
      PrefixedSnoc(p, x, prefix);
      var ws := WithPrefix(ds, prefix);
      assert ws[..|ws| - 1] == WithPrefix(p, prefix);
    }
  }

  /** A list cut off in the buffer comes back shorter than its bands, cut to eight digits. */
  lemma CutOffIsShorter(ds: seq<string>, prefix: string)
    requires AllBands(ds) && (prefix == "B" || prefix == "N")
    requires |Join(Prefixed(ds, prefix))| >= MAX_STRING_LENGTH
    ensures |Strip(Take(Join(Prefixed(ds, prefix)), MAX_STRING_LENGTH - 1), "BN")| < |Join(Cut(ds))|
  {
    var j := Join(Prefixed(ds, prefix));
    var kept, lost := j[..MAX_STRING_LENGTH - 1], j[MAX_STRING_LENGTH - 1..];
    StripJoin(ds, prefix);
    assert j == kept + lost;
    StripConcat(kept, lost, "BN");
    var front, last := lost[..|lost| - 1], [Last(lost)];
    assert lost == front + last && Last(lost) == Last(j);
    StripConcat(front, last, "BN");
    BandHasNoColon(last);
    StripNone(last, "BN");
  }

  lemma {:induction false} StripShorter(s: string, drop: string)
    ensures |Strip(s, drop)| <= |s|
  {
    if s != "" { StripShorter(s[1..], drop); }
  }

  /** For every list of bands: it comes back unchanged exactly when no band has more than eight
      digits and the list with its prefixes fits the buffer. */
  lemma RoundTripExactly(ds: seq<string>, prefix: string)
    requires AllBands(ds) && (prefix == "B" || prefix == "N")
    ensures ThereAndBack(Join(ds), prefix) == Join(ds) <==>
            (forall i :: 0 <= i < |ds| ==> |ds[i]| <= 8) && |Join(WithPrefix(ds, prefix))| < 160
  {
    JoinReads(ds);
    StripJoin(ds, prefix);
    CutLength(ds);
    var j := Join(Prefixed(ds, prefix));
    JoinedItems(Prefixed(ds, prefix));
    if AllShort(ds) { PrefixedShort(ds, prefix); }
    StripShorter(Take(Joined(Items(Formatted(Join(ds), prefix))), MAX_STRING_LENGTH - 1), "BN");
    if |Join(ds)| < CLEANED_SIZE {
      assert Formatted(Join(ds), prefix) == Prefixed(ds, prefix);
      if |j| >= MAX_STRING_LENGTH {
        CutOffIsShorter(ds, prefix);
      }
    }
  }
}
