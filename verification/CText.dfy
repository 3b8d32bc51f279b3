/** C strings and the few libc text functions the AT code relies on.  A C string is its
    contents, a `string` without the terminating NUL. */
module CText {

  datatype Option<+T> = None | Some(value: T) {
    function GetOr(default: T): T {
      if Some? then value else default
    }
  }

  const NUL: char := '\0'

  /** The prompt for an SMS PDU, section 4.3 of 3GPP TS 27.005. */
  const PROMPT: string := "> "

  ghost predicate NulFree(s: string) { NUL !in s }

  /** The C string at index p of a buffer is `text`. */
  ghost predicate StringAt(b: seq<char>, p: nat, text: string)
  {
    p + |text| < |b| && b[p..p + |text|] == text && b[p + |text|] == NUL && NulFree(text)
  }

  predicate IsDigit(c: char) { '0' <= c <= '9' }

  predicate IsAlnum(c: char) { IsDigit(c) || 'a' <= c <= 'z' || 'A' <= c <= 'Z' }

  /** `isspace` in the C locale: blank and the control characters 9 to 13. */
  predicate IsSpace(c: char) { c == ' ' || 9 as char <= c <= 13 as char }

  function Last<T>(s: seq<T>): T
    requires s != []
  {
    s[|s| - 1]
  }

  function Reverse<T>(s: seq<T>): (r: seq<T>)
    ensures |r| == |s|
  {
    if s == [] then [] else Reverse(s[1..]) + [s[0]]
  }

  lemma {:induction false} ReverseSnoc<T>(s: seq<T>, x: T)
    ensures Reverse(s + [x]) == [x] + Reverse(s)
  {
    if s == [] {
    } else {
      assert (s + [x])[1..] == s[1..] + [x];
      ReverseSnoc(s[1..], x);
    }
  }

  lemma {:induction false} ReverseTwice<T>(s: seq<T>)
    ensures Reverse(Reverse(s)) == s
  {
    if s == [] {
    } else {
      ReverseSnoc(Reverse(s[1..]), s[0]);
      ReverseTwice(s[1..]);
    }
  }

  predicate OccursAt(text: string, pat: string, i: nat)
  {
    i <= |text| && pat <= text[i..]
  }

  /** `strstr(text, pat) != NULL`. */
  predicate Contains(text: string, pat: string)
  {
    exists i :: 0 <= i <= |text| && OccursAt(text, pat, i)
  }

  /** Removes the first occurrence of `x`, if there is one. */
  function RemoveFirst<T(==)>(s: seq<T>, x: T): seq<T>
  {
    if s == [] then []
    else if x in s[..|s| - 1] then RemoveFirst(s[..|s| - 1], x) + [Last(s)]
    else if Last(s) == x then s[..|s| - 1]
    else s
  }

  /** Meaning of RemoveFirst: it cuts out exactly one element, the earliest `x`. */
  lemma {:induction false} RemoveFirstCuts<T>(s: seq<T>, x: T) returns (i: nat)
    ensures x !in s ==> RemoveFirst(s, x) == s
    ensures x in s ==> i < |s| && s[i] == x && x !in s[..i] && RemoveFirst(s, x) == s[..i] + s[i + 1..]
  {
    i := 0;
    if s != [] {
      var t, y := s[..|s| - 1], Last(s);
      assert s == t + [y];
      if x in t {
        i := RemoveFirstCuts(t, x);
        CutBefore(t, i, y);
      } else if y == x {
        i := |t|;
        CutLast(t, y);
      } else {
        assert x !in t + [y];
      }
    }
  }

  lemma CutLast<T>(t: seq<T>, y: T)
    ensures var s := t + [y];
            s[..|t|] == t && s[..|t|] + s[|t| + 1..] == t
  {
  }

  lemma CutBefore<T>(t: seq<T>, i: nat, y: T)
    requires i < |t|
    ensures var s := t + [y];
            s[..i] == t[..i] && s[i] == t[i] && s[..i] + s[i + 1..] == t[..i] + t[i + 1..] + [y]
  {
  }

  lemma RemoveFirstSnoc<T>(s: seq<T>, x: T, y: T)
    ensures RemoveFirst(s + [y], x) ==
            if x !in s && x == y then s else RemoveFirst(s, x) + [y]
  {
    assert (s + [y])[..|s|] == s;
  }

  lemma {:induction false} RemoveFirstIn<T>(s: seq<T>, x: T, y: T)
    requires x != y
    ensures y in RemoveFirst(s, x) <==> y in s
  {
    if s != [] {
      var t := s[..|s| - 1];
      assert s == t + [Last(s)];
      RemoveFirstIn(t, x, y);
    }
  }

  lemma {:induction false} RemoveFirstKeeps<T>(s: seq<T>, x: T)
    ensures multiset(s) == multiset(RemoveFirst(s, x)) + if x in s then multiset{x} else multiset{}
  {
    if s != [] {
      var t := s[..|s| - 1];
      assert s == t + [Last(s)];
      RemoveFirstKeeps(t, x);
    }
  }

  /** A list either grown by one element or not, as a multiset. */
  lemma GrownMultiset<T>(a: seq<T>, x: T, grow: bool)
    ensures multiset(a + if grow then [x] else []) == multiset(a) + if grow then multiset{x} else multiset{}
  {
    if !grow { assert a + [] == a; }
  }

  /** `strStartsWith`, character by character up to either terminator. */
  method StrStartsWith(line: string, prefix: string) returns (b: bool)
    ensures b <==> prefix <= line
  {
    var i := 0;
    while i < |line| && i < |prefix|
      invariant 0 <= i <= |line| && i <= |prefix|
      invariant prefix[..i] == line[..i]
    {
      if line[i] != prefix[i] {
        return false;
      }
      i := i + 1;
    }
    b := i == |prefix|;
  }

  /** The C string at `p`, copied. */
  method CopyString(b: array<char>, p: nat, ghost text: string) returns (s: string)
    requires StringAt(b[..], p, text)
    ensures s == text
  {
    s := "";
    assert forall k :: 0 <= k < |text| ==> b[p + k] == b[..][p..p + |text|][k] == text[k];
    while b[p + |s|] != NUL
      invariant |s| <= |text| && s == text[..|s|]
      decreases |text| - |s|
    {
      s := s + [b[p + |s|]];
    }
  }

  /** `strncpy(dst, s, n)`: the first n characters of the string, padded with NULs. */
  method StrNCpy(dst: array<char>, s: string, n: nat)
    requires n <= dst.Length
    modifies dst
    ensures forall k :: 0 <= k < n && k < |s| ==> dst[k] == s[k]
    ensures forall k :: |s| <= k < n ==> dst[k] == NUL
    ensures forall k :: n <= k < dst.Length ==> dst[k] == old(dst[k])
  {
    for i := 0 to n
      invariant forall k :: 0 <= k < i && k < |s| ==> dst[k] == s[k]
      invariant forall k :: |s| <= k < i ==> dst[k] == NUL
      invariant forall k :: n <= k < dst.Length ==> dst[k] == old(dst[k])
    {
      dst[i] := if i < |s| then s[i] else NUL;
    }
  }

  /** The string cut to n characters. */
  function Take(s: string, n: nat): string
  {
    if |s| <= n then s else s[..n]
  }

  /** `strncpy(dst, s, sizeof(dst) - 1); dst[sizeof(dst) - 1] = '\0'`. */
  method CopyCut(dst: array<char>, s: string)
    requires dst.Length > 0 && NulFree(s)
    modifies dst
    ensures StringAt(dst[..], 0, Take(s, dst.Length - 1)) && dst[dst.Length - 1] == NUL
  {
    StrNCpy(dst, s, dst.Length - 1);
    dst[dst.Length - 1] := NUL;
    assert dst[0..|Take(s, dst.Length - 1)|] == Take(s, dst.Length - 1);
  }
}
