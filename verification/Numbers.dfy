/** Decimal and hexadecimal integers: printing, and what `strtol`, `strtoul` and the
    conversion to `int` make of a string where `long` has 64 bits and `int` 32. */
module Numbers {
  import opened CText

  const LONG_MIN: int := -0x8000_0000_0000_0000
  const LONG_MAX: int := 0x7FFF_FFFF_FFFF_FFFF
  const ULONG_MAX: int := 0xFFFF_FFFF_FFFF_FFFF

  predicate IsInt32(n: int) { -0x8000_0000 <= n < 0x8000_0000 }

  /** `(int) l`. */
  function ToInt32(l: int): (n: int)
    ensures -2147483648 <= n <= 2147483647 && (l - n) % 4294967296 == 0
    ensures IsInt32(n) && (IsInt32(l) ==> n == l)
  {
    (l + 0x8000_0000) % 0x1_0000_0000 - 0x8000_0000
  }

  function SkipWs(s: string): string
  {
    if s != "" && IsSpace(s[0]) then SkipWs(s[1..]) else s
  }

  predicate IsBaseDigit(c: char, base: int)
  {
    IsDigit(c) || (base == 16 && ('a' <= c <= 'f' || 'A' <= c <= 'F'))
  }

  function DigitValue(c: char, base: int): nat
    requires IsBaseDigit(c, base)
  {
    if IsDigit(c) then (c - '0') as int
    else if 'a' <= c <= 'f' then (c - 'a') as int + 10
    else (c - 'A') as int + 10
  }

  /** The value of the digits at the front, after `acc`. */
  function Accumulate(acc: nat, s: string, base: int): nat
    requires base > 0
    decreases |s|
  {
    if s == "" || !IsBaseDigit(s[0], base) then acc
    else Accumulate(acc * base + DigitValue(s[0], base), s[1..], base)
  }

  datatype Literal = NoDigits | Literal(negative: bool, magnitude: nat)

  /** Blanks, a sign, a hexadecimal prefix and digits, as both functions read them. */
  function ReadLiteral(s: string, base: int): Literal
    requires base > 0
  {
    var t := SkipWs(s);
    var signed := t != "" && (t[0] == '-' || t[0] == '+');
    var u := if signed then t[1..] else t;
    var v := if base == 16 && |u| > 2 && u[0] == '0' && (u[1] == 'x' || u[1] == 'X') && IsBaseDigit(u[2], base)
             then u[2..] else u;
    if v == "" || !IsBaseDigit(v[0], base) then NoDigits
    else Literal(signed && t[0] == '-', Accumulate(0, v, base))
  }

  /** `strtol`: None when nothing was converted, and out of range values saturated. */
  function Strtol(s: string, base: int): Option<int>
    requires base > 0
  {
    match ReadLiteral(s, base)
    case NoDigits => None
    case Literal(negative, m) =>
      var l := if negative then 0 - (m as int) else m as int;
      Some(if l < LONG_MIN then LONG_MIN else if l > LONG_MAX then LONG_MAX else l)
  }

  /** `strtoul`: a negative literal wraps around. */
  function Strtoul(s: string, base: int): Option<int>
    requires base > 0
  {
    match ReadLiteral(s, base)
    case NoDigits => None
    case Literal(negative, m) =>
      Some(if m > ULONG_MAX then ULONG_MAX else if negative && m > 0 then ULONG_MAX + 1 - m else m)
  }

  /** The int `at_tok_nextint_base` gets from a token; None when no digit was found. */
  function TokenInt(s: string, base: int, uns: bool): (r: Option<int>)
    requires base > 0
    ensures r.Some? ==> IsInt32(r.value)
  {
    var l := if uns then Strtoul(s, base) else Strtol(s, base);
    if l.Some? then Some(ToInt32(l.value)) else None
  }

  // ----- printing -----

  function Digit(d: nat): (c: char)
    requires d < 10
    ensures IsDigit(c) && DigitValue(c, 10) == d
  {
    "0123456789"[d]
  }

  function PrintNat(n: nat): (s: string)
    ensures s != "" && forall i :: 0 <= i < |s| ==> IsDigit(s[i])
  {
    if n < 10 then [Digit(n)] else PrintNat(n / 10) + [Digit(n % 10)]
  }

  function PrintInt(n: int): string
  {
    if n < 0 then "-" + PrintNat(-n) else PrintNat(n)
  }

  lemma {:induction false} AccumulateSnoc(acc: nat, s: string, c: char, base: int)
    requires base > 0 && IsBaseDigit(c, base) && forall i :: 0 <= i < |s| ==> IsBaseDigit(s[i], base)
    ensures Accumulate(acc, s + [c], base) == Accumulate(acc, s, base) * base + DigitValue(c, base)
    decreases |s|
  {
    if s == "" {
      assert s + [c] == [c];
    } else {
      assert (s + [c])[1..] == s[1..] + [c];
      AccumulateSnoc(acc * base + DigitValue(s[0], base), s[1..], c, base);
    }
  }

  lemma {:induction false} AccumulatePrinted(n: nat)
    ensures Accumulate(0, PrintNat(n), 10) == n
  {
    if n >= 10 {
      AccumulatePrinted(n / 10);
      AccumulateSnoc(0, PrintNat(n / 10), Digit(n % 10), 10);
    }
  }

  function HexDigit(d: nat, upper: bool): (c: char)
    requires d < 16
    ensures IsBaseDigit(c, 16) && DigitValue(c, 16) == d
  {
    if upper then "0123456789ABCDEF"[d] else "0123456789abcdef"[d]
  }

  function PrintHex(n: nat, upper: bool): (s: string)
    ensures s != "" && AllDigits(s, 16)
  {
    if n < 16 then [HexDigit(n, upper)] else PrintHex(n / 16, upper) + [HexDigit(n % 16, upper)]
  }

  lemma {:induction false} AccumulateHex(n: nat, upper: bool)
    ensures Accumulate(0, PrintHex(n, upper), 16) == n
  {
    if n >= 16 {
      AccumulateHex(n / 16, upper);
      AccumulateSnoc(0, PrintHex(n / 16, upper), HexDigit(n % 16, upper), 16);
    }
  }

  // ----- reading in general -----

  /** The digits of a base. */
  function DigitsOf(base: int): string
  {
    if base == 16 then "0123456789abcdefABCDEF" else "0123456789"
  }

  lemma DigitSpelled(c: char, base: int)
    requires base == 10 || base == 16
    ensures IsBaseDigit(c, base) <==> c in DigitsOf(base)
  {
    if IsBaseDigit(c, base) {
      var k := DigitValue(c, base);
      var at := if 'A' <= c <= 'F' then k + 6 else k;
      assert at < |DigitsOf(base)| && DigitsOf(base)[at] == c;
    }
  }

  ghost predicate AllDigits(s: string, base: int)
  {
    forall i :: 0 <= i < |s| ==> IsBaseDigit(s[i], base)
  }

  ghost predicate AllBlanks(s: string)
  {
    forall i :: 0 <= i < |s| ==> s[i] == ' ' || 9 as char <= s[i] <= 13 as char
  }

  lemma {:induction false} SkipBlanks(blanks: string, s: string)
    requires AllBlanks(blanks) && (s != "" ==> !IsSpace(s[0]))
    ensures SkipWs(blanks + s) == s
  {
    if blanks == "" {
      assert blanks + s == s;
    } else {
      assert (blanks + s)[0] == blanks[0] && (blanks + s)[1..] == blanks[1..] + s;
      SkipBlanks(blanks[1..], s);
    }
  }

  lemma {:induction false} AccumulateStops(acc: nat, digits: string, rest: string, base: int)
    requires base > 0 && AllDigits(digits, base) && (rest != "" ==> !IsBaseDigit(rest[0], base))
    ensures Accumulate(acc, digits + rest, base) == Accumulate(acc, digits, base)
    decreases |digits|
  {
    if digits == "" {
      assert digits + rest == rest;
    } else {
      assert (digits + rest)[0] == digits[0] && (digits + rest)[1..] == digits[1..] + rest;
      AccumulateStops(acc * base + DigitValue(digits[0], base), digits[1..], rest, base);
    }
  }

  /** Blanks and a sign are taken off. */
  lemma SignTaken(blanks: string, sign: string, u: string)
    requires AllBlanks(blanks) && (sign == "" || sign == "+" || sign == "-")
    requires sign == "" && u != "" ==> !IsSpace(u[0]) && u[0] != '+' && u[0] != '-'
    ensures var t := SkipWs(blanks + sign + u);
            t == sign + u && (t != "" && (t[0] == '-' || t[0] == '+') <==> sign != "") &&
            (sign != "" ==> t[1..] == u && t[0] == sign[0])
  {
    assert blanks + sign + u == blanks + (sign + u);
    SkipBlanks(blanks, sign + u);
    if sign == "" { assert sign + u == u; }
  }

  /** A zero in front of this would be the beginning of a prefix. */
  ghost predicate PrefixBehindZero(rest: string)
  {
    |rest| > 1 && (rest[0] == 'x' || rest[0] == 'X') && IsBaseDigit(rest[1], 16)
  }

  /** A token that is blanks, a sign, perhaps the prefix of a hexadecimal number, digits, and
      whatever follows. */
  ghost predicate Numeral(blanks: string, sign: string, prefix: string, digits: string, rest: string, base: int)
  {
    AllBlanks(blanks) && (sign == "" || sign == "+" || sign == "-") && (base == 10 || base == 16) &&
    (prefix == "" || (base == 16 && (prefix == "0x" || prefix == "0X"))) &&
    digits != "" && AllDigits(digits, base) && (rest != "" ==> !IsBaseDigit(rest[0], base)) &&
    (base == 16 && prefix == "" && digits == "0" ==> !PrefixBehindZero(rest))
  }

  /** Digits with no prefix are not taken for one. */
  lemma NoPrefix(digits: string, rest: string)
    requires digits != "" && AllDigits(digits, 16) && (digits == "0" ==> !PrefixBehindZero(rest))
    ensures var u := digits + rest;
            |u| > 2 && u[0] == '0' && (u[1] == 'x' || u[1] == 'X') ==> !IsBaseDigit(u[2], 16)
  {
    var u := digits + rest;
    if |digits| > 1 {
      assert u[1] == digits[1];
    } else {
      assert digits == [u[0]] && u[1..] == rest;
    }
  }

  /** The prefix is taken off. */
  lemma PrefixTaken(prefix: string, digits: string, rest: string, base: int) returns (v: string)
    requires Numeral("", "", prefix, digits, rest, base)
    ensures var u := prefix + digits + rest;
            v == (if base == 16 && |u| > 2 && u[0] == '0' && (u[1] == 'x' || u[1] == 'X') && IsBaseDigit(u[2], base)
                  then u[2..] else u) &&
            v == digits + rest
  {
    v := digits + rest;
    var u := prefix + digits + rest;
    if prefix == "" {
      assert u == v;
      if base == 16 { NoPrefix(digits, rest); }
    } else {
      assert u[0] == prefix[0] && u[1] == prefix[1] && u[2] == digits[0] && u[2..] == v;
    }
  }

  lemma ReadsLiteral(blanks: string, sign: string, prefix: string, digits: string, rest: string, base: int)
    requires Numeral(blanks, sign, prefix, digits, rest, base)
    ensures ReadLiteral(blanks + sign + (prefix + digits + rest), base) ==
            Literal(sign == "-", Accumulate(0, digits, base))
  {
    var u := prefix + digits + rest;
    var v := PrefixTaken(prefix, digits, rest, base);
    assert u[0] == if prefix == "" then digits[0] else prefix[0];
    SignTaken(blanks, sign, u);
    AccumulateStops(0, digits, rest, base);
    assert v[0] == digits[0];
    if sign == "" { assert sign + u == u; }
  }

  /** The value of such a token: the number, saturated where `long` ends, and then cut to 32
      bits; unsigned, a negative one is cut just the same. */
  lemma NumeralReads(blanks: string, sign: string, prefix: string, digits: string, rest: string, base: int, uns: bool)
    requires Numeral(blanks, sign, prefix, digits, rest, base)
    ensures var m := Accumulate(0, digits, base);
            TokenInt(blanks + sign + (prefix + digits + rest), base, uns) ==
            Some(Read32(if sign == "-" then 0 - m else m, m, uns))
  {
    ReadsLiteral(blanks, sign, prefix, digits, rest, base);
    Saturated(sign == "-", Accumulate(0, digits, base), uns);
  }

  /** What is stored for the number n of magnitude m. */
  function Read32(n: int, m: nat, uns: bool): int
  {
    if uns then (if m > 18446744073709551615 then -1 else ToInt32(n))
    else if n < -9223372036854775808 then 0
    else if n > 9223372036854775807 then -1
    else ToInt32(n)
  }

  lemma Saturated(negative: bool, m: nat, uns: bool)
    ensures var n: int := if negative then 0 - m else m;
            Read32(n, m, uns) ==
            ToInt32(if uns
                    then (if m > ULONG_MAX then ULONG_MAX else if negative && m > 0 then ULONG_MAX + 1 - m else m)
                    else if n < LONG_MIN then LONG_MIN else if n > LONG_MAX then LONG_MAX else n)
  {
  }

  /** Nothing is read where no digit comes behind the blanks and the sign. */
  lemma NothingReads(blanks: string, sign: string, rest: string, base: int, uns: bool)
    requires AllBlanks(blanks) && (sign == "" || sign == "+" || sign == "-") && (base == 10 || base == 16)
    requires rest != "" ==> !IsBaseDigit(rest[0], base)
    requires sign == "" && rest != "" ==> !AllBlanks([rest[0]]) && rest[0] != '+' && rest[0] != '-'
    ensures TokenInt(blanks + sign + rest, base, uns) == None
  {
    if rest != "" { assert [rest[0]][0] == rest[0]; }
    SignTaken(blanks, sign, rest);
  }

  /** Reading back a printed int gives the int. */
  lemma PrintedIntReads(n: int)
    requires IsInt32(n)
    ensures TokenInt(PrintInt(n), 10, false) == Some(n)
  {
    var sign, ds := if n < 0 then "-" else "", PrintNat(if n < 0 then -n else n);
    NumeralReads("", sign, "", ds, "", 10, false);
    AccumulatePrinted(if n < 0 then -n else n);
    assert "" + sign + ("" + ds + "") == PrintInt(n);
  }

  /** Reading back a number printed in hexadecimal, in either case and with or without a prefix,
      gives its lower 32 bits as an int. */
  lemma PrintedHexReads(n: nat, upper: bool, prefix: string)
    requires n <= 18446744073709551615 && (prefix == "" || prefix == "0x" || prefix == "0X")
    ensures TokenInt(prefix + PrintHex(n, upper), 16, true) == Some(ToInt32(n))
  {
    var ds := PrintHex(n, upper);
    NumeralReads("", "", prefix, ds, "", 16, true);
    AccumulateHex(n, upper);
    assert "" + "" + (prefix + ds + "") == prefix + ds;
  }

  /** An area code as `%x` reads it, which `%d` does not. */
  lemma AreaCodeReads()
    ensures TokenInt("C4ED", 16, true) == Some(50413) && TokenInt("C4ED", 10, false) == None
  {
    assert PrintHex(12, true) == "C" && PrintHex(196, true) == "C4" && PrintHex(3150, true) == "C4E";
    assert PrintHex(50413, true) == "C4ED" && "" + "C4ED" == "C4ED" && "" + "" + "C4ED" == "C4ED";
    PrintedHexReads(50413, true, "");
    NothingReads("", "", "C4ED", 10, false);
  }
}
