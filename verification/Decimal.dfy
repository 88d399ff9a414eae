/** Decimal strings of naturals, as `str` and `int` convert them. */
module Decimal {
  import opened Arithmetic

  function Pow10(n: nat): (p: nat)
    ensures p > 0
  {
    if n == 0 then 1 else 10 * Pow10(n - 1)
  }

  predicate IsDigit(c: char) {
    '0' <= c <= '9'
  }

  function Digit(d: nat): (c: char)
    requires d < 10
    ensures IsDigit(c)
  {
    '0' + d as char
  }

  function DigitValue(c: char): (d: nat)
    requires IsDigit(c)
    ensures d < 10 && Digit(d) == c
  {
    (c - '0') as nat
  }

  predicate AllDigits(s: string) {
    forall i :: 0 <= i < |s| ==> IsDigit(s[i])
  }

  /** `str(n)`. */
  function Dec(n: nat): (s: string)
    ensures s != [] && AllDigits(s)
  {
    if n < 10 then [Digit(n)] else Dec(n / 10) + [Digit(n % 10)]
  }

  /** `s` is the `str` of a number from `a` to `b`. */
  ghost predicate IsDecOf(a: int, b: int, s: string) {
    exists n: nat :: a <= n <= b && s == Dec(n)
  }

  /** `int(s)`. */
  function Value(s: string): nat
    requires AllDigits(s)
  {
    if s == [] then 0 else 10 * Value(s[..|s| - 1]) + DigitValue(s[|s| - 1])
  }

  function Repeat(c: char, n: nat): (s: string)
    ensures |s| == n && forall i :: 0 <= i < n ==> s[i] == c
  {
    if n == 0 then [] else Repeat(c, n - 1) + [c]
  }

  lemma {:induction false} ValueOfDec(n: nat)
    ensures Value(Dec(n)) == n
  {
    if n >= 10 {
      ValueOfDec(n / 10);
      assert Dec(n)[..|Dec(n)| - 1] == Dec(n / 10);
    }
  }

  /** `str` gives a different string for every number. */
  lemma DecInjective(m: nat, n: nat)
    requires Dec(m) == Dec(n)
    ensures m == n
  {
    ValueOfDec(m);
    ValueOfDec(n);
  }

  lemma {:induction false} ValueConcat(a: string, b: string)
    requires AllDigits(a) && AllDigits(b)
    ensures AllDigits(a + b) && Value(a + b) == Value(a) * Pow10(|b|) + Value(b)
  {
    if b == [] {
      assert a + b == a;
    } else {
      var front, p := b[..|b| - 1], Pow10(|b| - 1);
      ValueConcat(a, front);
      assert (a + b)[..|a + b| - 1] == a + front && Pow10(|b|) == 10 * p;
      assert Value(a + b) == 10 * Value(a + front) + DigitValue(b[|b| - 1]);
      hide Pow10, Value;
      TimesTen(Value(a), p);
    }
  }

  lemma {:induction false} ValueBound(s: string)
    requires AllDigits(s)
    ensures Value(s) < Pow10(|s|)
  {
    if s != [] {
      ValueBound(s[..|s| - 1]);
    }
  }

  lemma {:induction false} NinesAndZeros(n: nat)
    ensures AllDigits(Repeat('9', n)) && AllDigits(Repeat('0', n))
    ensures Value(Repeat('9', n)) == Pow10(n) - 1 && Value(Repeat('0', n)) == 0
  {
    if n > 0 {
      NinesAndZeros(n - 1);
      assert Repeat('9', n)[..n - 1] == Repeat('9', n - 1);
      assert Repeat('0', n)[..n - 1] == Repeat('0', n - 1);
    }
  }

  /** The digits of a number below `10^n`, padded with zeros. */
  function Padded(v: nat, n: nat): (s: string)
    ensures |s| == n && AllDigits(s)
  {
    if n == 0 then [] else Padded(v / 10, n - 1) + [Digit(v % 10)]
  }

  lemma {:induction false} ValueOfPadded(v: nat, n: nat)
    requires v < Pow10(n)
    ensures Value(Padded(v, n)) == v
  {
    if n > 0 {
      ValueOfPadded(v / 10, n - 1);
      assert Padded(v, n)[..n - 1] == Padded(v / 10, n - 1);
    }
  }

  /** Digits appended to a positive number: its `str` is extended by them. */
  lemma {:induction false} DecAppend(q: nat, s: string)
    requires q > 0 && AllDigits(s)
    ensures Dec(q * Pow10(|s|) + Value(s)) == Dec(q) + s
  {
    if s == [] {
      assert Dec(q) + s == Dec(q);
    } else {
      var front, last := s[..|s| - 1], s[|s| - 1];
      DecAppend(q, front);
      var m := q * Pow10(|front|) + Value(front);
      var n := q * Pow10(|s|) + Value(s);
      TimesTen(q, Pow10(|front|));
      assert n == 10 * m + DigitValue(last);
      MulAtLeast(q, Pow10(|front|));
      assert n / 10 == m && n % 10 == DigitValue(last);
      assert Dec(n) == Dec(m) + [last];
      assert Dec(q) + s == Dec(q) + front + [last];
    }
  }

  lemma {:induction false} DecLength(n: nat, c: nat)
    requires c > 0
    ensures c < |Dec(n)| <==> n >= Pow10(c)
    decreases c
  {
    Pow10AtLeast(c);
    if n >= 10 && c > 1 {
      DecLength(n / 10, c - 1);
      DivDiv(n, c);
    }
  }

  /** Truncating `str(n)` by `c` characters divides by `10^c`. */
  lemma {:induction false} DecTruncate(n: nat, c: nat)
    requires 0 < c < |Dec(n)|
    ensures Dec(n)[..|Dec(n)| - c] == Dec(n / Pow10(c))
    decreases c
  {
    var s, front := Dec(n), Dec(n / 10);
    assert s == front + [Digit(n % 10)];
    if c == 1 {
      assert s[..|s| - 1] == front;
      assert Pow10(1) == 10;
    } else {
      DecTruncate(n / 10, c - 1);
      DivDiv(n, c);
      assert s[..|s| - c] == front[..|front| - (c - 1)];
    }
  }

  lemma {:induction false} Pow10AtLeast(c: nat)
    ensures c > 0 ==> Pow10(c) >= 10
  {
    if c > 1 {
      Pow10AtLeast(c - 1);
    }
  }

  lemma DivDiv(n: nat, c: nat)
    requires c > 0
    ensures n / 10 / Pow10(c - 1) == n / Pow10(c)
    ensures n / 10 >= Pow10(c - 1) <==> n >= Pow10(c)
  {
    var p := Pow10(c - 1);
    NestedDiv(n, 10, p);
    QuotientAtLeast(n, p, 10);
  }
}
