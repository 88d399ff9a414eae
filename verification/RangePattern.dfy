/** The pattern printed for one interval, read back as a regular expression. */
module RangePattern {
  import opened Arithmetic
  import opened Decimal
  import opened Stops

  // ---- Reading patterns --------------------------------------------------------------------

  function LeadingDigits(p: string): (k: nat)
    ensures k <= |p| && AllDigits(p[..k])
  {
    if p == "" || !IsDigit(p[0]) then 0 else 1 + LeadingDigits(p[1..])
  }

  /** A repetition count `{n}`, if there is one, and what follows it. */
  function Repetition(p: string): (r: (nat, string))
    ensures |r.1| <= |p|
  {
    if p == "" || p[0] != '{' then (1, p)
    else
      var k := LeadingDigits(p[1..]);
      if k > 0 && 1 + k < |p| && p[1 + k] == '}' then (Value(p[1..][..k]), p[k + 2..]) else (1, p)
  }

  /** Whether a whole string matches a pattern of literals, `[a-b]`, `\d`, `\d{n}` and `-?`. */
  predicate MatchesPattern(p: string, s: string)
    decreases |p|
  {
    if p == "" then s == ""
    else if |p| >= 5 && p[0] == '[' && p[2] == '-' && p[4] == ']' then
      s != "" && p[1] <= s[0] <= p[3] && MatchesPattern(p[5..], s[1..])
    else if |p| >= 2 && p[0] == '\\' && p[1] == 'd' then
      var (n, rest) := Repetition(p[2..]);
      n <= |s| && AllDigits(s[..n]) && MatchesPattern(rest, s[n..])
    else if |p| >= 2 && p[0] == '-' && p[1] == '?' then
      MatchesPattern(p[2..], s) || (s != "" && s[0] == '-' && MatchesPattern(p[2..], s[1..]))
    else
      s != "" && s[0] == p[0] && MatchesPattern(p[1..], s[1..])
  }

  // ---- Printing patterns -------------------------------------------------------------------

  function Piece(startDigit: char, stopDigit: char): string {
    if startDigit == stopDigit then [startDigit]
    else if startDigit != '0' || stopDigit != '9' then "[" + [startDigit] + "-" + [stopDigit] + "]"
    else ""
  }

  function Fixed(a: string, b: string): string
    requires |a| == |b|
  {
    if a == "" then ""
    else
      var last := |a| - 1;
      Fixed(a[..last], b[..last]) + Piece(a[last], b[last])
  }

  function AnyDigits(a: string, b: string): nat
    requires |a| == |b|
  {
    if a == "" then 0
    else
      var last := |a| - 1;
      AnyDigits(a[..last], b[..last]) + if a[last] == '0' && b[last] == '9' then 1 else 0
  }

  function Tail(anyDigits: nat): string {
    (if anyDigits > 0 then "\\d" else "") + (if anyDigits > 1 then "{" + Dec(anyDigits) + "}" else "")
  }

  function PatternText(start: nat, stop: nat): string {
    var a, b := Dec(start), Dec(stop);
    var n := if |a| <= |b| then |a| else |b|;
    Fixed(a[..n], b[..n]) + Tail(AnyDigits(a[..n], b[..n]))
  }

  /** The text for one interval: the loop moves every run of any digits to the end. */
  method RangeToPattern(start: nat, stop: nat) returns (pattern: string)
    ensures pattern == PatternText(start, stop)
  {
    hide Dec;
    var a, b := Dec(start), Dec(stop);
    var n := if |a| <= |b| then |a| else |b|;
    var anyDigitCount := 0;
    pattern := "";
    for i := 0 to n
      invariant pattern == Fixed(a[..i], b[..i]) && anyDigitCount == AnyDigits(a[..i], b[..i])
    {
      assert a[..i + 1][..i] == a[..i] && b[..i + 1][..i] == b[..i];
      if a[i] == b[i] {
        pattern := pattern + [a[i]];
      } else if a[i] != '0' || b[i] != '9' {
        pattern := pattern + ("[" + [a[i]] + "-" + [b[i]] + "]");
      } else {
        anyDigitCount := anyDigitCount + 1;
      }
    }
    ghost var fixed := pattern;
    if anyDigitCount > 0 {
      pattern := pattern + "\\d";
    }
    if anyDigitCount > 1 {
      pattern := pattern + ("{" + Dec(anyDigitCount) + "}");
    }
    assert pattern == fixed + Tail(anyDigitCount);
  }

  lemma {:induction false} PatternConcat(a: string, b: string, a': string, b': string)
    requires |a| == |b| && |a'| == |b'|
    ensures Fixed(a + a', b + b') == Fixed(a, b) + Fixed(a', b')
    ensures AnyDigits(a + a', b + b') == AnyDigits(a, b) + AnyDigits(a', b')
  {
    hide Piece;
    if a' == "" {
      assert a + a' == a && b + b' == b;
    } else {
      var last := |a'| - 1;
      var end := |a + a'| - 1;
      PatternConcat(a, b, a'[..last], b'[..last]);
      assert (a + a')[..end] == a + a'[..last] && (a + a')[end] == a'[last];
      assert (b + b')[..end] == b + b'[..last] && (b + b')[end] == b'[last];
      assert Fixed(a + a', b + b') == Fixed(a + a'[..last], b + b'[..last]) + Piece(a'[last], b'[last]);
    }
  }

  lemma {:induction false} PatternOfSame(a: string)
    ensures Fixed(a, a) == a && AnyDigits(a, a) == 0
  {
    if a != "" {
      PatternOfSame(a[..|a| - 1]);
      assert a == a[..|a| - 1] + [a[|a| - 1]];
    }
  }

  lemma {:induction false} PatternOfRun(c: nat)
    ensures Fixed(Repeat('0', c), Repeat('9', c)) == "" && AnyDigits(Repeat('0', c), Repeat('9', c)) == c
  {
    if c > 0 {
      PatternOfRun(c - 1);
      assert Repeat('0', c)[..c - 1] == Repeat('0', c - 1) && Repeat('9', c)[..c - 1] == Repeat('9', c - 1);
    }
  }

  // ---- What the parts match ----------------------------------------------------------------

  lemma {:induction false} MatchesLiteral(lit: string, p: string, s: string)
    requires AllDigits(lit)
    ensures MatchesPattern(lit + p, s) <==> lit <= s && MatchesPattern(p, s[|lit|..])
  {
    if lit == "" {
      assert lit + p == p && s[0..] == s;
    } else {
      assert (lit + p)[1..] == lit[1..] + p;
      if s != "" && s[0] == lit[0] {
        MatchesLiteral(lit[1..], p, s[1..]);
        assert lit[1..] <= s[1..] <==> lit <= s;
        assert lit <= s ==> s[1..][|lit[1..]|..] == s[|lit|..];
      }
    }
  }

  lemma MatchesRun(q: string, n: nat, s: string)
    requires Repetition(q) == (n, "")
    ensures MatchesPattern("\\d" + q, s) <==> |s| == n && AllDigits(s)
  {
    hide Repetition;
    var p := "\\d" + q;
    assert p[0] == '\\' && p[1] == 'd' && p[2..] == q;
    if n <= |s| {
      assert MatchesPattern(p, s) <==> AllDigits(s[..n]) && s[n..] == "";
      assert |s| == n ==> s[..n] == s;
    }
  }

  lemma MatchesTail(n: nat, s: string)
    ensures MatchesPattern(Tail(n), s) <==> |s| == n && AllDigits(s)
  {
    hide Dec;
    if n == 1 {
      MatchesRun("", 1, s);
      assert "\\d" + "" == Tail(n);
    } else if n > 1 {
      CountReadBack(n);
      MatchesRun("{" + Dec(n) + "}", n, s);
      assert "\\d" + ("{" + Dec(n) + "}") == Tail(n);
    }
  }

  lemma CountReadBack(n: nat)
    ensures Repetition("{" + Dec(n) + "}") == (n, "")
  {
    var p := "{" + Dec(n) + "}";
    assert p[1..] == Dec(n) + "}";
    LeadingDigitsOf(Dec(n), "}");
    assert p[1..][..|Dec(n)|] == Dec(n);
    ValueOfDec(n);
  }

  lemma {:induction false} LeadingDigitsOf(s: string, rest: string)
    requires AllDigits(s) && (rest == "" || !IsDigit(rest[0]))
    ensures LeadingDigits(s + rest) == |s|
  {
    if s == "" {
      assert s + rest == rest;
    } else {
      assert (s + rest)[1..] == s[1..] + rest;
      LeadingDigitsOf(s[1..], rest);
    }
  }

  // ---- Boxes of digits ---------------------------------------------------------------------

  /** A fixed head, one digit from a range, then `run` digits of any kind. */
  ghost predicate InBox(head: string, lo: char, hi: char, run: nat, s: string) {
    && |s| == |head| + 1 + run && AllDigits(s)
    && head <= s && lo <= s[|head|] <= hi
  }

  /** The printed pattern matches exactly the digit strings of the box. */
  lemma PatternMatchesBox(head: string, lo: char, hi: char, run: nat, s: string)
    requires AllDigits(head) && IsDigit(lo) && IsDigit(hi) && lo <= hi
    ensures var a, b := head + [lo] + Repeat('0', run), head + [hi] + Repeat('9', run);
            MatchesPattern(Fixed(a, b) + Tail(AnyDigits(a, b)), s) <==> InBox(head, lo, hi, run, s)
  {
    hide Piece, Tail, Fixed, AnyDigits, MatchesPattern, Repeat;
    var zeros, nines := Repeat('0', run), Repeat('9', run);
    var any := run + if lo == '0' && hi == '9' then 1 else 0;
    OneDigit(lo, hi);
    PatternOfSame(head);
    PatternOfRun(run);
    assert Fixed(head + [lo], head + [hi]) == head + Piece(lo, hi) by {
      PatternConcat(head, head, [lo], [hi]);
    }
    assert Fixed(head + [lo] + zeros, head + [hi] + nines) == head + Piece(lo, hi) by {
      PatternConcat(head + [lo], head + [hi], zeros, nines);
    }
    assert AnyDigits(head + [lo] + zeros, head + [hi] + nines) == any by {
      PatternConcat(head, head, [lo], [hi]);
      PatternConcat(head + [lo], head + [hi], zeros, nines);
    }
    assert head + Piece(lo, hi) + Tail(any) == head + (Piece(lo, hi) + Tail(any));
    MatchesLiteral(head, Piece(lo, hi) + Tail(any), s);
    if head <= s {
      MatchesPiece(lo, hi, run, s[|head|..]);
      BoxRest(head, lo, hi, run, s);
    }
  }

  lemma OneDigit(lo: char, hi: char)
    ensures Fixed([lo], [hi]) == Piece(lo, hi)
    ensures AnyDigits([lo], [hi]) == if lo == '0' && hi == '9' then 1 else 0
  {
    assert [lo][..0] == "" && [hi][..0] == "";
  }

  lemma BoxRest(head: string, lo: char, hi: char, run: nat, s: string)
    requires AllDigits(head) && head <= s
    ensures var rest := s[|head|..];
            InBox(head, lo, hi, run, s) <==> |rest| == 1 + run && AllDigits(rest) && lo <= rest[0] <= hi
  {
    var rest := s[|head|..];
    assert s == head + rest;
    if AllDigits(rest) {
      assert AllDigits(head + rest);
    }
    if AllDigits(s) {
      forall i | 0 <= i < |rest|
        ensures IsDigit(rest[i])
      {
        assert rest[i] == s[|head| + i];
      }
    }
  }

  lemma MatchesPiece(lo: char, hi: char, run: nat, s: string)
    requires IsDigit(lo) && IsDigit(hi) && lo <= hi
    ensures var any := run + if lo == '0' && hi == '9' then 1 else 0;
            MatchesPattern(Piece(lo, hi) + Tail(any), s) <==> |s| == 1 + run && AllDigits(s) && lo <= s[0] <= hi
  {
    hide Tail, MatchesPattern;
    var any := run + if lo == '0' && hi == '9' then 1 else 0;
    var p := Piece(lo, hi) + Tail(any);
    if lo == '0' && hi == '9' {
      assert p == Tail(any);
      MatchesTail(any, s);
    } else if s == "" {
      PieceMatchesNoEmpty(lo, hi, Tail(any));
    } else {
      MatchesTail(any, s[1..]);
      assert s == [s[0]] + s[1..];
      assert AllDigits(s) <==> IsDigit(s[0]) && AllDigits(s[1..]);
      MatchesOne(lo, hi, Tail(any), s);
    }
  }

  lemma PieceMatchesNoEmpty(lo: char, hi: char, p: string)
    requires IsDigit(lo) && IsDigit(hi) && !(lo == '0' && hi == '9')
    ensures !MatchesPattern(Piece(lo, hi) + p, "")
  {
    var whole := Piece(lo, hi) + p;
    assert whole[0] == lo || whole[0] == '[';
  }

  lemma MatchesOne(lo: char, hi: char, p: string, s: string)
    requires IsDigit(lo) && IsDigit(hi) && lo <= hi && !(lo == '0' && hi == '9') && s != ""
    ensures MatchesPattern(Piece(lo, hi) + p, s) <==> lo <= s[0] <= hi && MatchesPattern(p, s[1..])
  {
    var whole := Piece(lo, hi) + p;
    if lo == hi {
      assert whole[0] == lo && whole[1..] == p;
    } else {
      assert whole == "[" + [lo] + "-" + [hi] + "]" + p;
      assert whole[0] == '[' && whole[1] == lo && whole[2] == '-' && whole[3] == hi && whole[4] == ']';
      assert whole[5..] == p;
    }
  }

  lemma DecOfDigit(d: nat)
    requires d < 10
    ensures Dec(d) == [Digit(d)]
  {
  }

  lemma LastDigit(q: nat, d: nat)
    requires q > 0 && d < 10
    ensures Dec(10 * q + d) == Dec(q) + [Digit(d)]
  {
    assert (10 * q + d) / 10 == q;
  }

  /** `str` of the numbers with a common quotient: the quotient's digits, then the rest. */
  lemma DecOfBox(q: nat, d: nat, rest: string, k: nat, n: nat)
    requires d < 10 && AllDigits(rest) && (q > 0 || d > 0 || rest == "")
    requires k == 10 * q + d && n == k * Pow10(|rest|) + Value(rest)
    ensures Dec(n) == (if q == 0 then "" else Dec(q)) + [Digit(d)] + rest
  {
    hide Dec, Pow10;
    if k == 0 {
      DecOfDigit(0);
    } else {
      hide Value;
      DecAppend(k, rest);
      if q > 0 {
        LastDigit(q, d);
      } else {
        DecOfDigit(d);
      }
    }
  }

  lemma NestedQuotient(x: nat, c: nat)
    ensures x / Pow10(c) / 10 == x / Pow10(c + 1)
  {
    NestedDiv(x, Pow10(c), 10);
  }

  lemma EndsOfBox(a: nat, s: nat, c: nat)
    requires Multiple(a, c) && Multiple(s + 1, c)
    ensures a == a / Pow10(c) * Pow10(c)
    ensures s == s / Pow10(c) * Pow10(c) + (Pow10(c) - 1)
  {
    var p := Pow10(c);
    var k := AsMultiple(s + 1, c);
    Distribute(k, 1, p);
    DivUnique(s, k - 1, p - 1, p);
    var m := AsMultiple(a, c);
    DivUnique(a, m, 0, p);
  }

  /** Numbers between two leading parts have their own leading part between them. */
  lemma LeadingPart(x: nat, y: nat, n: nat, c: nat)
    ensures x * Pow10(c) <= n < y * Pow10(c) + Pow10(c) <==> x <= n / Pow10(c) <= y
  {
    var p := Pow10(c);
    var k := n / p;
    assert n == k * p + n % p;
    Distribute(k, x, p);
    Distribute(x, k, p);
    Distribute(y, k, p);
    Distribute(k, y, p);
    if x <= k {
      assert (k - x) * p >= 0;
    } else {
      MulAtLeast(x - k, p);
    }
    if k <= y {
      assert (y - k) * p >= 0;
    } else {
      MulAtLeast(k - y, p);
    }
  }

  lemma BoxMember(head: string, q: nat, lo: nat, hi: nat, c: nat, str: string) returns (n: nat)
    requires head == if q == 0 then "" else Dec(q)
    requires lo <= hi < 10 && (q > 0 || lo > 0 || c == 0)
    requires InBox(head, Digit(lo), Digit(hi), c, str)
    ensures str == Dec(n) && 10 * q + lo <= n / Pow10(c) <= 10 * q + hi
  {
    hide Dec, Value, Pow10;
    var d, rest := DigitValue(str[|head|]), str[|head| + 1..];
    assert AllDigits(rest);
    assert str == head + [str[|head|]] + rest;
    n := (10 * q + d) * Pow10(c) + Value(rest);
    ValueBound(rest);
    DivUnique(n, 10 * q + d, Value(rest), Pow10(c));
    DecOfBox(q, d, rest, 10 * q + d, n);
  }

  lemma MemberInBox(head: string, q: nat, lo: nat, hi: nat, c: nat, n: nat)
    requires head == if q == 0 then "" else Dec(q)
    requires lo <= hi < 10 && (q > 0 || lo > 0 || c == 0)
    requires 10 * q + lo <= n / Pow10(c) <= 10 * q + hi
    ensures InBox(head, Digit(lo), Digit(hi), c, Dec(n))
  {
    Euclid(n, Pow10(c));
    MemberOfParts(head, q, lo, hi, c, n / Pow10(c), n % Pow10(c));
  }

  lemma MemberOfParts(head: string, q: nat, lo: nat, hi: nat, c: nat, k: nat, w: nat)
    requires head == if q == 0 then "" else Dec(q)
    requires lo <= hi < 10 && (q > 0 || lo > 0 || c == 0)
    requires 10 * q + lo <= k <= 10 * q + hi && w < Pow10(c)
    ensures InBox(head, Digit(lo), Digit(hi), c, Dec(k * Pow10(c) + w))
  {
    hide Dec, Pow10, Padded;
    DecOfParts(head, q, k - 10 * q, w, c);
  }

  lemma DecOfParts(head: string, q: nat, d: nat, w: nat, c: nat)
    requires head == if q == 0 then "" else Dec(q)
    requires d < 10 && (q > 0 || d > 0 || c == 0) && w < Pow10(c)
    ensures Dec((10 * q + d) * Pow10(c) + w) == head + [Digit(d)] + Padded(w, c)
  {
    hide Dec, Value, Pow10, Padded;
    ValueOfPadded(w, c);
    DecOfBox(q, d, Padded(w, c), 10 * q + d, (10 * q + d) * Pow10(c) + w);
  }

  /** Quotient and leading digits of the two ends of a box interval. */
  lemma Decompose(a: nat, s: nat, c: nat) returns (q: nat, lo: nat, hi: nat)
    requires a <= s && IsBox(a, s, c)
    ensures lo <= hi < 10 && (q > 0 || lo > 0 || c == 0)
    ensures a == (10 * q + lo) * Pow10(c) && s == (10 * q + hi) * Pow10(c) + (Pow10(c) - 1)
  {
    NestedQuotient(a, c);
    NestedQuotient(s, c);
    EndsOfBox(a, s, c);
    var x, y := a / Pow10(c), s / Pow10(c);
    LeadingPart(x, y, s, c);
    hide Pow10, Multiple;
    q, lo, hi := x / 10, x % 10, y % 10;
    assert x <= y by {
      if y < x {
        MulAtLeast(x - y, Pow10(c));
        Distribute(x, y, Pow10(c));
      }
    }
    if q == 0 && lo == 0 {
      assert a == 0;
    }
  }

  /** The numbers of a box interval are those whose `str` lies in a box of digits. */
  lemma IntervalIsDigitBox(a: nat, s: nat, level: nat) returns (head: string, lo: nat, hi: nat)
    requires a <= s && IsBox(a, s, level)
    ensures AllDigits(head) && lo <= hi < 10
    ensures Dec(a) == head + [Digit(lo)] + Repeat('0', level)
    ensures Dec(s) == head + [Digit(hi)] + Repeat('9', level)
    ensures forall str :: InBox(head, Digit(lo), Digit(hi), level, str) <==> IsDecOf(a, s, str)
  {
    var q;
    q, lo, hi := Decompose(a, s, level);
    head := if q == 0 then "" else Dec(q);
    hide Dec, Value, Pow10, InBox, Multiple, Repeat, IsBox;
    EndsRead(head, q, lo, level);
    EndsRead(head, q, hi, level);
    hide IsDecOf;
    forall str
      ensures InBox(head, Digit(lo), Digit(hi), level, str) <==> IsDecOf(a, s, str)
    {
      BoxHolds(head, q, lo, hi, level, str);
    }
  }

  lemma EndsRead(head: string, q: nat, d: nat, c: nat)
    requires head == if q == 0 then "" else Dec(q)
    requires d < 10
    ensures var n := (10 * q + d) * Pow10(c);
            && (q > 0 || d > 0 || c == 0 ==> Dec(n) == head + [Digit(d)] + Repeat('0', c))
            && (q > 0 || d > 0 || c == 0 ==> Dec(n + (Pow10(c) - 1)) == head + [Digit(d)] + Repeat('9', c))
  {
    hide Dec, Pow10, Value;
    NinesAndZeros(c);
    if q > 0 || d > 0 || c == 0 {
      var n := (10 * q + d) * Pow10(c);
      DecOfBox(q, d, Repeat('0', c), 10 * q + d, n);
      DecOfBox(q, d, Repeat('9', c), 10 * q + d, n + (Pow10(c) - 1));
    }
  }

  lemma BoxHolds(head: string, q: nat, lo: nat, hi: nat, c: nat, str: string)
    requires head == if q == 0 then "" else Dec(q)
    requires lo <= hi < 10 && (q > 0 || lo > 0 || c == 0)
    ensures var a, s := (10 * q + lo) * Pow10(c), (10 * q + hi) * Pow10(c) + (Pow10(c) - 1);
            InBox(head, Digit(lo), Digit(hi), c, str) <==> IsDecOf(a, s, str)
  {
    hide InBox, Pow10;
    var a, s := (10 * q + lo) * Pow10(c), (10 * q + hi) * Pow10(c) + (Pow10(c) - 1);
    if InBox(head, Digit(lo), Digit(hi), c, str) {
      var n := BoxMember(head, q, lo, hi, c, str);
      LeadingPart(10 * q + lo, 10 * q + hi, n, c);
      assert a <= n <= s && str == Dec(n);
    }
    if IsDecOf(a, s, str) {
      var n: nat :| a <= n <= s && str == Dec(n);
      LeadingPart(10 * q + lo, 10 * q + hi, n, c);
      MemberInBox(head, q, lo, hi, c, n);
    }
  }

  /** The pattern printed for a box interval matches exactly the numbers of the interval. */
  lemma PatternIsExact(a: nat, s: nat, level: nat)
    requires a <= s && IsBox(a, s, level)
    ensures forall str :: MatchesPattern(PatternText(a, s), str) <==> IsDecOf(a, s, str)
  {
    var head, lo, hi := IntervalIsDigitBox(a, s, level);
    var x, y := Dec(a), Dec(s);
    assert |x| == |y| && x[..|x|] == x && y[..|y|] == y;
    hide MatchesPattern, InBox, IsDecOf, Dec, Fixed, AnyDigits, Tail, Repeat, IsBox;
    forall str
      ensures MatchesPattern(PatternText(a, s), str) <==> IsDecOf(a, s, str)
    {
      PatternMatchesBox(head, Digit(lo), Digit(hi), level, str);
    }
  }

  // ---- Characters of a pattern -------------------------------------------------------------

  /** No character of the alternation or of an optional sign. */
  predicate Plain(p: string) {
    forall i :: 0 <= i < |p| ==> p[i] != '|' && p[i] != '?'
  }

  lemma {:induction false} FixedIsPlain(a: string, b: string)
    requires |a| == |b| && AllDigits(a) && AllDigits(b)
    ensures Plain(Fixed(a, b))
  {
    if a != "" {
      FixedIsPlain(a[..|a| - 1], b[..|a| - 1]);
    }
  }

  lemma PatternIsPlain(start: nat, stop: nat)
    ensures Plain(PatternText(start, stop))
  {
    var a, b := Dec(start), Dec(stop);
    var n := if |a| <= |b| then |a| else |b|;
    FixedIsPlain(a[..n], b[..n]);
    assert Plain(Tail(AnyDigits(a[..n], b[..n])));
  }
}
