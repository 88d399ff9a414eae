/** Regular expressions for ranges of integers. */
module RangeRegex {
  import opened Arithmetic
  import opened Decimal
  import opened Stops
  import opened RangePattern
  import opened Text

  // ---- split_to_ranges ---------------------------------------------------------------------

  function FillByNines(integer: nat, ninesCount: nat): nat
    requires ninesCount > 0
  {
    var s := Dec(integer);
    var head := if ninesCount < |s| then s[..|s| - ninesCount] else "";
    NinesAndZeros(ninesCount);
    ValueConcat(head, Repeat('9', ninesCount));
    Value(head + Repeat('9', ninesCount))
  }

  function FillByZeros(integer: nat, zerosCount: nat): int {
    integer - integer % Pow10(zerosCount)
  }

  lemma FillByNinesIsNines(n: nat, c: nat)
    requires c > 0
    ensures FillByNines(n, c) == Nines(n, c)
  {
    NinesAndZeros(c);
    DecLength(n, c);
    if c < |Dec(n)| {
      DecTruncate(n, c);
      ValueOfDec(n / Pow10(c));
      ValueConcat(Dec(n)[..|Dec(n)| - c], Repeat('9', c));
    } else {
      ValueConcat("", Repeat('9', c));
      DivUnique(n, 0, n, Pow10(c));
    }
  }

  lemma NinesMonotone(n: nat, c: nat, d: nat)
    requires c <= d
    ensures Nines(n, c) <= Nines(n, d)
  {
    NinesIsCeiling(n, c);
    NinesIsCeiling(n, d);
    MultipleDown(Nines(n, d) + 1, c, d);
  }

  lemma ZerosAntitone(n: nat, c: nat, d: nat)
    requires c <= d
    ensures Zeros(n, d) <= Zeros(n, c)
  {
    ZerosIsFloor(n, c);
    ZerosIsFloor(n, d);
    MultipleDown(Zeros(n, d) + 1, c, d);
  }

  ghost predicate Increasing(s: seq<nat>) {
    forall i, j :: 0 <= i < j < |s| ==> s[i] < s[j]
  }

  function InsertSorted(s: seq<nat>, x: nat): seq<nat> {
    if s == [] then [x]
    else if s[|s| - 1] < x then s + [x]
    else InsertSorted(s[..|s| - 1], x) + [s[|s| - 1]]
  }

  lemma {:induction false} InsertSortedInserts(s: seq<nat>, x: nat)
    requires Increasing(s) && x !in s
    ensures Increasing(InsertSorted(s, x))
    ensures forall y :: y in InsertSorted(s, x) <==> y in s || y == x
  {
    if s != [] && s[|s| - 1] >= x {
      var front, last := s[..|s| - 1], s[|s| - 1];
      assert s == front + [last];
      InsertSortedInserts(front, x);
      var inserted := InsertSorted(front, x);
      assert InsertSorted(s, x) == inserted + [last];
      hide InsertSorted;
      forall i | 0 <= i < |inserted|
        ensures inserted[i] < last
      {
        assert inserted[i] in inserted;
      }
    }
  }

  /** `list`, then `sort`. */
  method Sorted(stops: set<nat>) returns (out: seq<nat>)
    ensures Increasing(out)
    ensures forall x :: x in out <==> x in stops
  {
    var rest := stops;
    out := [];
    while rest != {}
      invariant rest <= stops && Increasing(out)
      invariant forall x :: x in out <==> x in stops - rest
      decreases rest
    {
      var x :| x in rest;
      InsertSortedInserts(out, x);
      out := InsertSorted(out, x);
      rest := rest - {x};
    }
  }

  ghost predicate NinesBelow(lo: nat, hi: nat, x: int, c: nat) {
    exists d: nat :: d < c && IsNines(lo, hi, x, d)
  }

  ghost predicate ZerosBelow(lo: nat, hi: nat, x: int, c: nat) {
    exists d: nat :: d < c && IsZeros(lo, hi, x, d)
  }

  lemma OneMoreNines(lo: nat, hi: nat, c: nat)
    requires c > 0
    ensures forall x :: !NinesBelow(lo, hi, x, 1)
    ensures Nines(lo, c) < hi ==>
              forall x :: NinesBelow(lo, hi, x, c + 1) <==> NinesBelow(lo, hi, x, c) || x == Nines(lo, c)
  {
    hide Nines;
    if Nines(lo, c) < hi {
      assert IsNines(lo, hi, Nines(lo, c), c);
      forall x
        ensures NinesBelow(lo, hi, x, c + 1) <==> NinesBelow(lo, hi, x, c) || x == Nines(lo, c)
      {
        if NinesBelow(lo, hi, x, c + 1) {
          var d: nat :| d < c + 1 && IsNines(lo, hi, x, d);
        }
        if NinesBelow(lo, hi, x, c) {
          var d: nat :| d < c && IsNines(lo, hi, x, d);
          assert d < c + 1 && IsNines(lo, hi, x, d);
        }
      }
    }
  }

  lemma OneMoreZeros(lo: nat, hi: nat, c: nat)
    requires c > 0
    ensures forall x :: !ZerosBelow(lo, hi, x, 1)
    ensures lo < Zeros(hi + 1, c) ==>
              forall x :: ZerosBelow(lo, hi, x, c + 1) <==> ZerosBelow(lo, hi, x, c) || x == Zeros(hi + 1, c)
  {
    hide Zeros;
    if lo < Zeros(hi + 1, c) {
      assert IsZeros(lo, hi, Zeros(hi + 1, c), c);
      forall x
        ensures ZerosBelow(lo, hi, x, c + 1) <==> ZerosBelow(lo, hi, x, c) || x == Zeros(hi + 1, c)
      {
        if ZerosBelow(lo, hi, x, c + 1) {
          var d: nat :| d < c + 1 && IsZeros(lo, hi, x, d);
        }
        if ZerosBelow(lo, hi, x, c) {
          var d: nat :| d < c && IsZeros(lo, hi, x, d);
          assert d < c + 1 && IsZeros(lo, hi, x, d);
        }
      }
    }
  }

  method SplitToRanges(lo: nat, hi: nat) returns (out: seq<nat>)
    requires lo <= hi
    ensures Increasing(out)
    ensures forall x: nat :: x in out <==> IsStop(lo, hi, x)
  {
    hide Nines, Zeros, Pow10, NinesBelow, ZerosBelow, IsNines, IsZeros, Increasing;
    var stops: set<nat> := {hi};
    var ninesCount := 1;
    FillByNinesIsNines(lo, 1);
    NinesIsCeiling(lo, 1);
    OneMoreNines(lo, hi, 1);
    var stop: int := FillByNines(lo, ninesCount);
    while lo <= stop < hi
      invariant ninesCount > 0 && stop == Nines(lo, ninesCount)
      invariant forall x: nat :: x in stops <==> x == hi || NinesBelow(lo, hi, x, ninesCount)
      decreases hi - Pow10(ninesCount)
    {
      stops := stops + {stop};
      OneMoreNines(lo, hi, ninesCount);
      NinesGrow(lo, ninesCount);
      ninesCount := ninesCount + 1;
      FillByNinesIsNines(lo, ninesCount);
      stop := FillByNines(lo, ninesCount);
    }
    NinesIsCeiling(lo, ninesCount);
    NoMoreNines(lo, hi, ninesCount);
    ghost var withNines := stops;
    var zerosCount := 1;
    ZerosIsFillByZeros(hi + 1, 1);
    ZerosIsFloor(hi + 1, 1);
    OneMoreZeros(lo, hi, 1);
    stop := FillByZeros(hi + 1, zerosCount) - 1;
    while lo < stop <= hi
      invariant zerosCount > 0 && stop == Zeros(hi + 1, zerosCount)
      invariant forall x: nat :: x in stops <==> x in withNines || ZerosBelow(lo, hi, x, zerosCount)
      decreases hi + 1 - Pow10(zerosCount)
    {
      stops := stops + {stop};
      OneMoreZeros(lo, hi, zerosCount);
      ZerosShrink(hi + 1, zerosCount);
      zerosCount := zerosCount + 1;
      ZerosIsFillByZeros(hi + 1, zerosCount);
      stop := FillByZeros(hi + 1, zerosCount) - 1;
    }
    ZerosIsFloor(hi + 1, zerosCount);
    NoMoreZeros(lo, hi, zerosCount);
    out := Sorted(stops);
  }

  lemma ZerosIsFillByZeros(n: nat, c: nat)
    ensures FillByZeros(n, c) - 1 == Zeros(n, c)
  {
  }

  /** A stop at `Nines` below `hi` leaves room for the next power. */
  lemma NinesGrow(n: nat, c: nat)
    ensures Pow10(c) <= Nines(n, c) + 1 && Pow10(c) < Pow10(c + 1)
  {
    hide Pow10;
    var q, p := n / Pow10(c), Pow10(c);
    assert q * p >= 0;
    Pow10Step(c, c + 1);
  }

  lemma ZerosShrink(n: nat, c: nat)
    requires Zeros(n, c) >= 0
    ensures Pow10(c) <= n && Pow10(c) < Pow10(c + 1)
  {
    if n < Pow10(c) {
      DivUnique(n, 0, n, Pow10(c));
    }
  }

  lemma NoMoreNines(lo: nat, hi: nat, c: nat)
    requires Nines(lo, c) >= hi
    ensures forall x :: NinesBelow(lo, hi, x, c) <==> exists d: nat :: IsNines(lo, hi, x, d)
  {
    forall x, d: nat | IsNines(lo, hi, x, d)
      ensures d < c
    {
      if c <= d {
        NinesMonotone(lo, c, d);
      }
    }
  }

  lemma NoMoreZeros(lo: nat, hi: nat, c: nat)
    requires Zeros(hi + 1, c) <= lo
    ensures forall x :: ZerosBelow(lo, hi, x, c) <==> exists d: nat :: IsZeros(lo, hi, x, d)
  {
    forall x, d: nat | IsZeros(lo, hi, x, d)
      ensures d < c
    {
      if c <= d {
        ZerosAntitone(hi + 1, c, d);
      }
    }
  }

  // ---- split_to_patterns -------------------------------------------------------------------

  ghost predicate SomeMatches(patterns: seq<string>, s: string) {
    exists p :: p in patterns && MatchesPattern(p, s)
  }

  /** No string matches two of the patterns. */
  ghost predicate Disjoint(patterns: seq<string>) {
    forall j, k, s :: 0 <= j < k < |patterns| && MatchesPattern(patterns[j], s) ==> !MatchesPattern(patterns[k], s)
  }

  predicate AllPlain(patterns: seq<string>) {
    forall i :: 0 <= i < |patterns| ==> Plain(patterns[i])
  }

  /** Neighbouring stops and the largest number make up the whole range. */
  lemma StopsAreIntervals(lo: nat, hi: nat, stops: seq<nat>, i: nat)
    requires lo <= hi && Increasing(stops) && (forall x: nat :: x in stops <==> IsStop(lo, hi, x))
    requires i < |stops|
    ensures IsInterval(lo, hi, if i == 0 then lo else stops[i - 1] + 1, stops[i])
    ensures stops[|stops| - 1] == hi
  {
    hide IsStop;
    var start: nat := if i == 0 then lo else stops[i - 1] + 1;
    forall x: nat | x in stops
      ensures lo <= x <= hi
    {
      StopInRange(lo, hi, x);
    }
    HiIsStop(lo, hi);
    assert stops[i] in stops && (i > 0 ==> stops[i - 1] in stops);
    forall j | 0 <= j < |stops|
      ensures !(start <= stops[j] < stops[i])
    {
    }
    assert forall x: nat :: start <= x < stops[i] ==> x !in stops;
    var k :| 0 <= k < |stops| && stops[k] == hi;
    assert stops[|stops| - 1] in stops;
  }

  lemma StopInRange(lo: nat, hi: nat, x: int)
    requires lo <= hi && IsStop(lo, hi, x)
    ensures lo <= x <= hi
  {
    if c: nat :| IsNines(lo, hi, x, c) {
      NinesIsCeiling(lo, c);
    } else if c: nat :| IsZeros(lo, hi, x, c) {
      ZerosIsFloor(hi + 1, c);
    }
  }

  lemma HiIsStop(lo: nat, hi: nat)
    ensures IsStop(lo, hi, hi)
  {
  }

  /** The patterns together match exactly the numbers from `lo` to `hi`, each number by one of them only. */
  method SplitToPatterns(lo: nat, hi: nat) returns (patterns: seq<string>)
    requires lo <= hi
    ensures forall s :: SomeMatches(patterns, s) <==> IsDecOf(lo, hi, s)
    ensures Disjoint(patterns)
    ensures AllPlain(patterns) && patterns != []
  {
    hide IsStop, PatternText, MatchesPattern, IsDecOf, SomeMatches;
    var start: int := lo;
    var stops := SplitToRanges(lo, hi);
    HiIsStop(lo, hi);
    patterns := [];
    NoneBelow(lo);
    for i := 0 to |stops|
      invariant start == if i == 0 then lo else stops[i - 1] + 1
      invariant |patterns| == i && AllPlain(patterns) && Disjoint(patterns)
      invariant forall s :: SomeMatches(patterns, s) <==> IsDecOf(lo, start - 1, s)
    {
      StopsAreIntervals(lo, hi, stops, i);
      var level := IntervalIsBox(lo, hi, start, stops[i]);
      PatternIsExact(start, stops[i], level);
      PatternIsPlain(start, stops[i]);
      var pattern := RangeToPattern(start, stops[i]);
      forall s
        ensures SomeMatches(patterns + [pattern], s) <==> IsDecOf(lo, stops[i], s)
      {
        OneMore(patterns, pattern, s);
        DecOfSplit(lo, start, stops[i], s);
      }
      StaysDisjoint(patterns, pattern, lo, start, stops[i]);
      patterns := patterns + [pattern];
      start := stops[i] + 1;
    }
    assert hi in stops;
    StopsAreIntervals(lo, hi, stops, |stops| - 1);
  }

  lemma DifferentNumbers(lo: int, start: int, stop: int, s: string)
    requires IsDecOf(lo, start - 1, s)
    ensures !IsDecOf(start, stop, s)
  {
    hide Dec;
    var m: nat :| lo <= m <= start - 1 && s == Dec(m);
    forall n: nat | start <= n <= stop
      ensures s != Dec(n)
    {
      if s == Dec(n) {
        DecInjective(m, n);
      }
    }
  }

  lemma StaysDisjoint(patterns: seq<string>, pattern: string, lo: int, start: int, stop: int)
    requires Disjoint(patterns) && forall s :: SomeMatches(patterns, s) <==> IsDecOf(lo, start - 1, s)
    requires forall s :: MatchesPattern(pattern, s) <==> IsDecOf(start, stop, s)
    ensures Disjoint(patterns + [pattern])
  {
    hide MatchesPattern, IsDecOf;
    var all := patterns + [pattern];
    forall j, k, s | 0 <= j < k < |all| && MatchesPattern(all[j], s)
      ensures !MatchesPattern(all[k], s)
    {
      if k == |patterns| {
        assert all[j] in patterns;
        assert SomeMatches(patterns, s);
        DifferentNumbers(lo, start, stop, s);
      }
    }
  }

  lemma NoneBelow(lo: nat)
    ensures forall s :: SomeMatches([], s) <==> IsDecOf(lo, lo - 1, s)
  {
  }

  lemma OneMore(patterns: seq<string>, pattern: string, s: string)
    ensures SomeMatches(patterns + [pattern], s) <==> SomeMatches(patterns, s) || MatchesPattern(pattern, s)
  {
    hide MatchesPattern;
    if SomeMatches(patterns, s) {
      var p :| p in patterns && MatchesPattern(p, s);
      assert p in patterns + [pattern];
    }
    if MatchesPattern(pattern, s) {
      assert pattern in patterns + [pattern];
    }
  }

  lemma DecOfSplit(lo: int, mid: int, hi: int, s: string)
    requires lo <= mid <= hi + 1
    ensures IsDecOf(lo, hi, s) <==> IsDecOf(lo, mid - 1, s) || IsDecOf(mid, hi, s)
  {
    hide Dec;
    if IsDecOf(lo, hi, s) {
      var n: nat :| lo <= n <= hi && s == Dec(n);
      assert n < mid ==> IsDecOf(lo, mid - 1, s);
    }
  }

  // ---- regex_for_range ---------------------------------------------------------------------

  /** One of the alternatives matches. */
  ghost predicate MatchesRegex(r: string, s: string) {
    SomeMatches(Split(r, '|'), s)
  }

  /** `[prefix + val for val in vals if (val in others) == wanted]`. */
  function Select(prefix: string, vals: seq<string>, others: seq<string>, wanted: bool): (out: seq<string>)
    ensures forall p :: p in out <==> exists val :: val in vals && (val in others) == wanted && p == prefix + val
  {
    if vals == [] then []
    else
      var rest, val := Select(prefix, vals[..|vals| - 1], others, wanted), vals[|vals| - 1];
      assert vals == vals[..|vals| - 1] + [val];
      if (val in others) == wanted then rest + [prefix + val] else rest
  }

  /** `str` of an integer. */
  function IntStr(n: int): string {
    if n < 0 then "-" + Dec(-n) else Dec(n)
  }

  lemma SelectMatches(prefix: string, vals: seq<string>, others: seq<string>, wanted: bool, s: string)
    ensures SomeMatches(Select(prefix, vals, others, wanted), s) <==>
            exists val :: val in vals && (val in others) == wanted && MatchesPattern(prefix + val, s)
  {
    hide MatchesPattern;
    var out := Select(prefix, vals, others, wanted);
    if SomeMatches(out, s) {
      var p :| p in out && MatchesPattern(p, s);
      var val :| val in vals && (val in others) == wanted && p == prefix + val;
    }
    if val :| val in vals && (val in others) == wanted && MatchesPattern(prefix + val, s) {
      assert prefix + val in out;
    }
  }

  lemma SignedMatches(val: string, s: string)
    requires Plain(val)
    ensures MatchesPattern("-" + val, s) <==> s != "" && s[0] == '-' && MatchesPattern(val, s[1..])
    ensures MatchesPattern("-?" + val, s) <==>
            MatchesPattern(val, s) || (s != "" && s[0] == '-' && MatchesPattern(val, s[1..]))
    ensures MatchesPattern("" + val, s) <==> MatchesPattern(val, s)
  {
    assert ("-" + val)[1..] == val && ("-?" + val)[2..] == val && "" + val == val;
    if val != "" {
      assert ("-" + val)[1] == val[0];
    }
  }

  /** The strings that the signed alternatives match: a minus before a negative one, or a positive one. */
  ghost predicate Signed(negative: seq<string>, positive: seq<string>, s: string) {
    || (s != "" && s[0] == '-' && SomeMatches(negative, s[1..]))
    || SomeMatches(positive, s)
  }

  function Subpatterns(negative: seq<string>, positive: seq<string>): seq<string> {
    Select("-", negative, positive, false) + Select("-?", negative, positive, true)
    + Select("", positive, negative, false)
  }

  lemma SubpatternsMatch(negative: seq<string>, positive: seq<string>, s: string)
    requires AllPlain(negative) && AllPlain(positive)
    ensures SomeMatches(Subpatterns(negative, positive), s) <==> Signed(negative, positive, s)
  {
    hide MatchesPattern, Plain, Select;
    var a, b, c := Select("-", negative, positive, false), Select("-?", negative, positive, true),
                   Select("", positive, negative, false);
    SomeConcat(a, b, s);
    SomeConcat(a + b, c, s);
    SelectMatches("-", negative, positive, false, s);
    SelectMatches("-?", negative, positive, true, s);
    SelectMatches("", positive, negative, false, s);
    AllSignedMatch(negative, s);
    AllSignedMatch(positive, s);
    hide Select;
    if s != "" && s[0] == '-' && SomeMatches(negative, s[1..]) {
      var val :| val in negative && MatchesPattern(val, s[1..]);
      assert val !in positive ==> SomeMatches(a, s);
      assert val in positive ==> SomeMatches(b, s);
    }
    if SomeMatches(positive, s) {
      var val :| val in positive && MatchesPattern(val, s);
      assert val !in negative ==> SomeMatches(c, s);
      assert val in negative ==> SomeMatches(b, s);
    }
  }

  lemma SomeConcat(a: seq<string>, b: seq<string>, s: string)
    ensures SomeMatches(a + b, s) <==> SomeMatches(a, s) || SomeMatches(b, s)
  {
    hide MatchesPattern;
    if p :| p in a && MatchesPattern(p, s) {
      assert p in a + b;
    }
    if p :| p in b && MatchesPattern(p, s) {
      assert p in a + b;
    }
  }

  lemma AllSignedMatch(vals: seq<string>, s: string)
    requires AllPlain(vals)
    ensures forall val :: val in vals ==>
              && (MatchesPattern("-" + val, s) <==> s != "" && s[0] == '-' && MatchesPattern(val, s[1..]))
              && (MatchesPattern("-?" + val, s) <==>
                    MatchesPattern(val, s) || (s != "" && s[0] == '-' && MatchesPattern(val, s[1..])))
              && (MatchesPattern("" + val, s) <==> MatchesPattern(val, s))
  {
    hide MatchesPattern;
    forall val | val in vals
      ensures MatchesPattern("-" + val, s) <==> s != "" && s[0] == '-' && MatchesPattern(val, s[1..])
      ensures MatchesPattern("-?" + val, s) <==>
              MatchesPattern(val, s) || (s != "" && s[0] == '-' && MatchesPattern(val, s[1..]))
      ensures MatchesPattern("" + val, s) <==> MatchesPattern(val, s)
    {
      SignedMatches(val, s);
    }
  }

  lemma SubpatternsHaveNoBar(negative: seq<string>, positive: seq<string>)
    requires AllPlain(negative) && AllPlain(positive)
    ensures forall i :: 0 <= i < |Subpatterns(negative, positive)| ==> Lacks(Subpatterns(negative, positive)[i], '|')
  {
    var out := Subpatterns(negative, positive);
    forall i | 0 <= i < |out|
      ensures Lacks(out[i], '|')
    {
      var p := out[i];
      assert p in out;
      var prefix, val :| (val in negative || val in positive) && prefix in ["-", "-?", ""] && p == prefix + val;
      assert Plain(val);
    }
  }

  /** The whole expression matches exactly the `str` of the integers from `min` to `max`. */
  method RegexForRange(min: int, max: int) returns (regex: string)
    requires min <= max
    ensures forall s :: MatchesRegex(regex, s) <==> exists n :: min <= n <= max && s == IntStr(n)
  {
    hide MatchesPattern, Plain, IntStr;
    var positiveSubpatterns, negativeSubpatterns := [], [];
    var min0 := min;
    if min < 0 {
      var low := 1;
      if max < 0 {
        low := -max;
      }
      negativeSubpatterns := SplitToPatterns(low, -min);
      min0 := 0;
    }
    if max >= 0 {
      positiveSubpatterns := SplitToPatterns(min0, max);
    }
    var subpatterns := Subpatterns(negativeSubpatterns, positiveSubpatterns);
    regex := Join(subpatterns, '|');
    ghost var negLow, posLow := if max < 0 then -max else 1, if min < 0 then 0 else min;
    forall s
      ensures MatchesRegex(regex, s) <==> exists n :: min <= n <= max && s == IntStr(n)
    {
      SubpatternsHaveNoBar(negativeSubpatterns, positiveSubpatterns);
      SubpatternsMatch(negativeSubpatterns, positiveSubpatterns, s);
      SignedRange(min, max, s);
      SplitJoin(subpatterns, '|');
    }
  }

  lemma SignedRange(min: int, max: int, s: string)
    requires min <= max
    ensures (exists n :: min <= n <= max && s == IntStr(n)) <==>
            || (s != "" && s[0] == '-' && IsDecOf(if max < 0 then -max else 1, -min, s[1..]))
            || IsDecOf(if min < 0 then 0 else min, max, s)
  {
    if n :| min <= n <= max && s == IntStr(n) {
      if n < 0 {
        assert s[1..] == Dec(-n);
      }
    }
    if s != "" && s[0] == '-' && IsDecOf(if max < 0 then -max else 1, -min, s[1..]) {
      var m: nat :| (if max < 0 then -max else 1) <= m <= -min && s[1..] == Dec(m);
      var n: int := 0 - m;
      assert s == IntStr(n);
    }
    if IsDecOf(if min < 0 then 0 else min, max, s) {
      var m: nat :| (if min < 0 then 0 else min) <= m <= max && s == Dec(m);
      assert s == IntStr(m);
    }
  }
}
