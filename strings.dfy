/**
  The JavaScript string operations the models use, on `string` = `seq<char>`.
 */
module Strings {

  /** `s.startsWith(t)`. */
  predicate StartsWith(s: string, t: string) {
    |t| <= |s| && s[..|t|] == t
  }

  /** `s.endsWith(t)`. */
  predicate EndsWith(s: string, t: string) {
    |t| <= |s| && s[|s| - |t|..] == t
  }

  /** `s.includes(t)`: `t` occurs in `s` at some position. */
  predicate Contains(s: string, t: string) {
    exists i :: 0 <= i <= |s| && StartsWith(s[i..], t)
  }

  /** Something that starts with `t` contains it. */
  lemma StartsWithContains(s: string, t: string)
    requires StartsWith(s, t)
    ensures Contains(s, t)
  {
    assert s[0..] == s;
  }

  /** An occurrence of `t` inside `a` is an occurrence inside `a + b` and inside `b + a`. */
  lemma ContainsExtend(a: string, b: string, t: string)
    requires Contains(a, t)
    ensures Contains(a + b, t) && Contains(b + a, t)
  {
    var i :| 0 <= i <= |a| && StartsWith(a[i..], t);
    assert (a + b)[i..][..|t|] == a[i..][..|t|];
    assert (b + a)[|b| + i..] == a[i..];
  }

  /**
    `s.lastIndexOf(c)` for a single character: the last position holding `c`,
    or -1 when there is none.
   */
  function LastIndexOf(s: string, c: char): (r: int)
    ensures -1 <= r < |s|
    ensures r == -1 <==> c !in s
    ensures 0 <= r ==> s[r] == c && c !in s[r + 1..]
  {
    if s == [] then -1
    else if s[|s| - 1] == c then |s| - 1
    else
      var r := LastIndexOf(s[..|s| - 1], c);
      assert s == s[..|s| - 1] + [s[|s| - 1]];
      assert r >= 0 ==> s[r + 1..] == s[..|s| - 1][r + 1..] + [s[|s| - 1]];
      r
  }

  /** A position holding `c` with no `c` after it is the last index of `c`. */
  lemma LastIndexOfUnique(s: string, c: char, i: int)
    requires 0 <= i < |s| && s[i] == c && c !in s[i + 1..]
    ensures LastIndexOf(s, c) == i
  {
    var r := LastIndexOf(s, c);
    assert s[i] in s;
  }

  /** `parts.join(sep)`. */
  function Join(parts: seq<string>, sep: string): string
  {
    if |parts| == 0 then ""
    else if |parts| == 1 then parts[0]
    else parts[0] + sep + Join(parts[1..], sep)
  }

  /** Joining two non-empty lists puts one separator between the two joins. */
  lemma {:induction false} JoinAppend(a: seq<string>, b: seq<string>, sep: string)
    requires |a| > 0 && |b| > 0
    ensures Join(a + b, sep) == Join(a, sep) + sep + Join(b, sep)
    decreases |a|
  {
    if |a| > 1 {
      assert (a + b)[1..] == a[1..] + b;
      JoinAppend(a[1..], b, sep);
    } else {
      assert (a + b)[1..] == b;
    }
  }

  /** The decimal digit for `d`. */
  function Digit(d: nat): char
    requires d < 10
  {
    ('0' as int + d) as char
  }

  predicate IsDigit(c: char) {
    '0' <= c <= '9'
  }

  /** The number an all-digit string denotes. */
  function DigitsValue(s: string): nat
    requires AllDigits(s)
  {
    if s == [] then 0
    else
      assert IsDigit(s[|s| - 1]);
      DigitsValue(s[..|s| - 1]) * 10 + (s[|s| - 1] as int - '0' as int)
  }

  /** Decimal notation of a natural number, without leading zeros. */
  function NatToString(n: nat): (r: string)
    ensures |r| > 0
    ensures forall i :: 0 <= i < |r| ==> '0' <= r[i] <= '9'
    decreases n
  {
    if n < 10 then [Digit(n)] else NatToString(n / 10) + [Digit(n % 10)]
  }

  /** Reading the decimal notation back gives the number. */
  lemma {:induction false} NatToStringValue(n: nat)
    ensures DigitsValue(NatToString(n)) == n
    decreases n
  {
    if n >= 10 {
      NatToStringValue(n / 10);
      var s := NatToString(n);
      assert s[..|s| - 1] == NatToString(n / 10);
    }
  }

  /** Decimal notation starts with `0` only for zero itself, which is written `0`. */
  lemma {:induction false} NatToStringNoLeadingZero(n: nat)
    ensures NatToString(n)[0] == '0' <==> n == 0
    ensures n == 0 ==> NatToString(n) == "0"
    decreases n
  {
    if n >= 10 {
      NatToStringNoLeadingZero(n / 10);
      assert NatToString(n)[0] == NatToString(n / 10)[0];
    }
  }

  /** All characters are digits. */
  predicate AllDigits(s: string) {
    forall i :: 0 <= i < |s| ==> IsDigit(s[i])
  }

  /** The length of the run of digits that starts `s`. */
  function LeadingDigits(s: string): (r: nat)
    ensures r <= |s| && AllDigits(s[..r])
    ensures r < |s| ==> !IsDigit(s[r])
  {
    if s == [] || !IsDigit(s[0]) then 0 else 1 + LeadingDigits(s[1..])
  }

  /** A digit run followed by a non-digit is exactly the leading run. */
  lemma {:induction false} LeadingDigitsOf(x: string, t: string)
    requires AllDigits(x)
    requires t != [] && !IsDigit(t[0])
    ensures LeadingDigits(x + t) == |x|
    decreases |x|
  {
    var y := x + t;
    if x == [] {
      assert y == t;
    } else {
      assert IsDigit(y[0]) by {
        assert y[0] == x[0];
      }
      assert AllDigits(x[1..]);
      assert y[1..] == x[1..] + t;
      LeadingDigitsOf(x[1..], t);
      assert LeadingDigits(y) == 1 + LeadingDigits(y[1..]);
    }
  }

  /**
    Decimal notation is self-delimiting: followed by anything that does not start with
    a digit, it determines the number and what follows.
   */
  lemma NatToStringPrefixFree(a: nat, b: nat, t1: string, t2: string)
    requires t1 != [] && !IsDigit(t1[0]) && t2 != [] && !IsDigit(t2[0])
    requires NatToString(a) + t1 == NatToString(b) + t2
    ensures a == b && t1 == t2
  {
    var x, y := NatToString(a), NatToString(b);
    LeadingDigitsOf(x, t1);
    LeadingDigitsOf(y, t2);
    assert x == (x + t1)[..|x|] == (y + t2)[..|y|] == y;
    assert t1 == (x + t1)[|x|..] == (y + t2)[|y|..] == t2;
    NatToStringValue(a);
    NatToStringValue(b);
  }

  /** `String(n)` for an integer-valued number. */
  function IntToString(n: int): (r: string)
    ensures |r| > 0
    ensures (r[0] == '-') <==> n < 0
  {
    if n < 0 then "-" + NatToString(-n) else NatToString(n)
  }

  lemma DropSign(m: nat, n: nat, t1: string, t2: string)
    requires "-" + NatToString(m) + t1 == "-" + NatToString(n) + t2
    ensures NatToString(m) + t1 == NatToString(n) + t2
  {
    var u, v := NatToString(m) + t1, NatToString(n) + t2;
    assert "-" + NatToString(m) + t1 == "-" + u;
    assert "-" + NatToString(n) + t2 == "-" + v;
    assert u == ("-" + u)[1..] && v == ("-" + v)[1..];
  }

  /** `String(n)` is self-delimiting in the same way as decimal notation. */
  lemma IntToStringPrefixFree(a: int, b: int, t1: string, t2: string)
    requires t1 != [] && !IsDigit(t1[0]) && t2 != [] && !IsDigit(t2[0])
    requires IntToString(a) + t1 == IntToString(b) + t2
    ensures a == b && t1 == t2
  {
    var x, y := IntToString(a), IntToString(b);
    assert a < 0 <==> b < 0 by {
      assert (x + t1)[0] == x[0] && (y + t2)[0] == y[0];
    }
    if a < 0 {
      DropSign(-a, -b, t1, t2);
      NatToStringPrefixFree(-a, -b, t1, t2);
    } else {
      NatToStringPrefixFree(a, b, t1, t2);
    }
  }
}
