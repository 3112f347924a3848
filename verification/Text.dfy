/** Printed numbers, and how a text that separates its parts comes apart again. */
module Text {
  predicate Digit(c: char) { '0' <= c <= '9' }

  predicate Digits(s: string) { s != "" && forall i :: 0 <= i < |s| ==> Digit(s[i]) }

  function DigitChar(d: nat): (c: char)
    requires d < 10
    ensures Digit(c) && c as int - '0' as int == d
  {
    ('0' as int + d) as char
  }

  /** `%d` of a natural number. */
  function Dec(n: nat): (s: string)
    ensures Digits(s)
  {
    if n < 10 then [DigitChar(n)] else Dec(n / 10) + [DigitChar(n % 10)]
  }

  function DecInt(n: int): string { if n < 0 then "-" + Dec(-n) else Dec(n) }

  function ValueOf(s: string): nat
    requires forall i :: 0 <= i < |s| ==> Digit(s[i])
  {
    if s == "" then 0
    else
      var c := s[|s| - 1];
      assert Digit(c);
      10 * ValueOf(s[..|s| - 1]) + (c as int - '0' as int)
  }

  lemma {:induction false} DecValue(n: nat)
    ensures ValueOf(Dec(n)) == n
  {
    if n >= 10 {
      DecValue(n / 10);
      assert Dec(n)[..|Dec(n)| - 1] == Dec(n / 10);
    } else {
      assert Dec(n)[..0] == "";
    }
  }

  /** No digit is written that says nothing: the first one is 0 for 0 alone. */
  lemma {:induction false} DecLeads(n: nat)
    ensures Dec(n)[0] == '0' <==> n == 0
  {
    if n >= 10 {
      DecLeads(n / 10);
    }
  }

  /** The number a text stands for, its sign included. */
  function IntOf(s: string): int
    requires s != "" && forall i :: (if s[0] == '-' then 1 else 0) <= i < |s| ==> Digit(s[i])
  {
    if s[0] == '-' then -(ValueOf(s[1..]) as int) else ValueOf(s)
  }

  lemma DecIntValue(n: int)
    ensures var s := DecInt(n);
            s != "" && (forall i :: (if s[0] == '-' then 1 else 0) <= i < |s| ==> Digit(s[i])) && IntOf(s) == n
            && (s[0] == '-' <==> n < 0)
  {
    var d := Dec(if n < 0 then -n else n);
    DecValue(if n < 0 then -n else n);
    assert Digit(d[0]);
    assert n < 0 ==> DecInt(n)[1..] == d;
  }

  lemma DecInjective(m: nat, n: nat)
    requires Dec(m) == Dec(n)
    ensures m == n
  {
    DecValue(m);
    DecValue(n);
  }

  lemma {:induction false} DecLength(n: nat, width: nat, bound: nat)
    requires 0 < width && bound == Pow10(width) && n < bound
    ensures |Dec(n)| <= width
    decreases width
  {
    if n >= 10 {
      DecLength(n / 10, width - 1, Pow10(width - 1));
    }
  }

  function Pow10(n: nat): nat { if n == 0 then 1 else 10 * Pow10(n - 1) }

  predicate Lacks(s: string, c: char) { forall i :: 0 <= i < |s| ==> s[i] != c }

  lemma DigitsLack(s: string, c: char)
    requires Digits(s) && !Digit(c)
    ensures Lacks(s, c)
  {
  }

  /** A text splits at its first separator in one way. */
  lemma SplitFirst(a: string, b: string, x: string, y: string, sep: char)
    requires Lacks(a, sep) && Lacks(x, sep)
    requires a + [sep] + b == x + [sep] + y
    ensures a == x && b == y
  {
    var s, t := a + [sep] + b, x + [sep] + y;
    assert s[|a|] == sep && t[|x|] == sep;
    assert forall i :: 0 <= i < |a| ==> s[i] == a[i];
    assert forall i :: 0 <= i < |x| ==> t[i] == x[i];
    assert |a| == |x|;
    assert a == s[..|a|] && x == t[..|x|];
    assert b == s[|a| + 1..] && y == t[|x| + 1..];
  }

  /** And at its last one. */
  lemma SplitLast(a: string, b: string, x: string, y: string, sep: char)
    requires Lacks(b, sep) && Lacks(y, sep)
    requires a + [sep] + b == x + [sep] + y
    ensures a == x && b == y
  {
    var s, t := a + [sep] + b, x + [sep] + y;
    assert s[|a|] == sep && t[|x|] == sep;
    assert forall i :: |a| < i < |s| ==> s[i] == b[i - |a| - 1];
    assert forall i :: |x| < i < |t| ==> t[i] == y[i - |x| - 1];
    assert |a| == |x|;
    assert a == s[..|a|] && x == t[..|x|];
    assert b == s[|a| + 1..] && y == t[|x| + 1..];
  }
}
