/** The interval ends that `split_to_ranges` chooses, and the shape of the intervals between them. */
module Stops {
  import opened Arithmetic
  import opened Decimal

  // ---- Multiples of powers of ten ----------------------------------------------------------

  ghost predicate Multiple(x: int, c: nat) {
    x % Pow10(c) == 0
  }

  /** The last `c` digits replaced by nines. */
  function Nines(x: nat, c: nat): nat {
    x / Pow10(c) * Pow10(c) + Pow10(c) - 1
  }

  /** One less than the number with its last `c` digits replaced by zeros. */
  function Zeros(x: nat, c: nat): int {
    x - x % Pow10(c) - 1
  }

  lemma MultipleOf(q: int, c: nat)
    ensures Multiple(q * Pow10(c), c)
  {
    DivUnique(q * Pow10(c), q, 0, Pow10(c));
  }

  lemma AsMultiple(x: int, c: nat) returns (q: int)
    requires Multiple(x, c)
    ensures x == q * Pow10(c)
  {
    q := x / Pow10(c);
  }

  lemma MultiplesApart(x: int, y: int, c: nat)
    requires Multiple(x, c) && Multiple(y, c) && x < y
    ensures x + Pow10(c) <= y
  {
    var q := AsMultiple(x, c);
    var q' := AsMultiple(y, c);
    MulOrder(q', q, Pow10(c));
    Distribute(q', q, Pow10(c));
    MulAtLeast(q' - q, Pow10(c));
  }

  lemma {:induction false} MultipleDown(x: int, c: nat, d: nat)
    requires Multiple(x, d) && c <= d
    ensures Multiple(x, c)
    decreases d
  {
    if c < d {
      var q := AsMultiple(x, d);
      TimesTen(q, Pow10(d - 1));
      assert x == 10 * q * Pow10(d - 1);
      MultipleOf(10 * q, d - 1);
      MultipleDown(x, c, d - 1);
    }
  }

  lemma MultipleShift(x: int, c: nat, k: int)
    requires Multiple(x, c)
    ensures Multiple(x + k * Pow10(c), c)
  {
    var q := AsMultiple(x, c);
    DistributeSum(q, k, Pow10(c));
    MultipleOf(q + k, c);
  }

  lemma {:induction false} Pow10Monotone(c: nat, d: nat)
    requires c <= d
    ensures Pow10(c) <= Pow10(d)
    decreases d
  {
    if c < d {
      Pow10Monotone(c, d - 1);
    }
  }

  /** One past `Nines` is the least multiple above; one past `Zeros` the greatest not above. */
  lemma NinesIsCeiling(x: nat, c: nat)
    ensures Multiple(Nines(x, c) + 1, c) && x <= Nines(x, c) < x + Pow10(c)
    ensures forall y :: Multiple(y, c) && x < y ==> Nines(x, c) < y
  {
    var p, q := Pow10(c), x / Pow10(c);
    assert x == q * p + x % p;
    DistributeSum(q, 1, p);
    MultipleOf(q + 1, c);
    forall y | Multiple(y, c) && x < y
      ensures Nines(x, c) < y
    {
      MultipleOf(q, c);
      MultiplesApart(q * p, y, c);
    }
  }

  lemma ZerosIsFloor(x: nat, c: nat)
    ensures Multiple(Zeros(x, c) + 1, c) && x - Pow10(c) <= Zeros(x, c) < x
    ensures forall y :: Multiple(y, c) && y <= x ==> y <= Zeros(x, c) + 1
  {
    var p, q := Pow10(c), x / Pow10(c);
    assert x == q * p + x % p;
    MultipleOf(q, c);
    forall y | Multiple(y, c) && y <= x
      ensures y <= Zeros(x, c) + 1
    {
      if y > q * p {
        MultiplesApart(q * p, y, c);
      }
    }
  }

  lemma SameQuotient(x: int, y: int, c: nat)
    requires x <= y
    requires forall m :: x < m <= y ==> !Multiple(m, c)
    ensures x / Pow10(c) == y / Pow10(c)
  {
    var p := Pow10(c);
    var q, q' := x / p, y / p;
    assert x == q * p + x % p && y == q' * p + y % p;
    MultipleOf(q', c);
    if q' * p <= x {
      DivUnique(x, q', x - q' * p, p) by {
        assert x - q' * p < p;
      }
    }
  }

  // ---- Stops and intervals -----------------------------------------------------------------

  ghost predicate IsNines(lo: nat, hi: nat, x: int, c: nat) {
    c > 0 && x == Nines(lo, c) && x < hi
  }

  ghost predicate IsZeros(lo: nat, hi: nat, x: int, c: nat) {
    c > 0 && x == Zeros(hi + 1, c) && lo < x
  }

  ghost predicate IsStop(lo: nat, hi: nat, x: int) {
    || x == hi
    || (exists c: nat :: IsNines(lo, hi, x, c))
    || (exists c: nat :: IsZeros(lo, hi, x, c))
  }

  lemma NinesStop(lo: nat, hi: nat, c: nat)
    requires c > 0 && Nines(lo, c) < hi
    ensures IsStop(lo, hi, Nines(lo, c))
  {
    assert IsNines(lo, hi, Nines(lo, c), c);
  }

  lemma ZerosStop(lo: nat, hi: nat, c: nat)
    requires c > 0 && lo < Zeros(hi + 1, c)
    ensures IsStop(lo, hi, Zeros(hi + 1, c))
  {
    assert IsZeros(lo, hi, Zeros(hi + 1, c), c);
  }

  lemma StopCases(lo: nat, hi: nat, x: int)
    requires IsStop(lo, hi, x)
    ensures x == hi || (exists c: nat :: IsNines(lo, hi, x, c)) || (exists c: nat :: IsZeros(lo, hi, x, c))
  {
  }

  /** `a..s` lies between two neighbouring stops. */
  ghost predicate IsInterval(lo: nat, hi: nat, a: nat, s: int) {
    && lo <= a <= s <= hi
    && (a == lo || IsStop(lo, hi, a - 1))
    && IsStop(lo, hi, s)
    && forall x :: a <= x < s ==> !IsStop(lo, hi, x)
  }

  /** From `level` digits on the ends agree but for one digit; below it they are all zeros and all nines. */
  ghost predicate IsBox(a: nat, s: nat, level: nat) {
    && Multiple(a, level) && Multiple(s + 1, level)
    && a / Pow10(level + 1) == s / Pow10(level + 1)
    && (a == 0 ==> level == 0)
  }

  lemma {:induction false} FindLevel(a: nat, s: nat, c: nat) returns (level: nat)
    requires Multiple(a, c) && a + Pow10(c) - 1 <= s
    ensures Multiple(a, level) && a + Pow10(level) - 1 <= s
    ensures !(Multiple(a, level + 1) && a + Pow10(level + 1) - 1 <= s)
    decreases s - Pow10(c)
  {
    if Multiple(a, c + 1) && a + Pow10(c + 1) - 1 <= s {
      level := FindLevel(a, s, c + 1);
    } else {
      level := c;
    }
  }

  /** Every interval between neighbouring stops is a box of digits. */
  lemma IntervalIsBox(lo: nat, hi: nat, a: nat, s: nat) returns (level: nat)
    requires IsInterval(lo, hi, a, s)
    ensures IsBox(a, s, level)
  {
    if a == 0 {
      level := 0;
      ZeroInterval(hi, s);
    } else {
      assert Pow10(0) == 1;
      level := FindLevel(a, s, 0);
      EndIsAligned(lo, hi, a, s, level);
      if Multiple(a, level + 1) {
        WithinOne(a, s, level + 1);
      } else {
        NoMultipleInside(lo, hi, a, s, level + 1);
        SameQuotient(a, s, level + 1);
      }
    }
  }

  lemma WithinOne(a: nat, s: nat, c: nat)
    requires Multiple(a, c) && a <= s < a + Pow10(c)
    ensures a / Pow10(c) == s / Pow10(c)
  {
    var q := AsMultiple(a, c);
    DivUnique(a, q, 0, Pow10(c));
    DivUnique(s, q, s - a, Pow10(c));
  }

  lemma ZeroInterval(hi: nat, s: nat)
    requires IsInterval(0, hi, 0, s)
    ensures IsBox(0, s, 0)
  {
    assert Pow10(0) == 1 && Pow10(1) == 10;
    if hi > 9 {
      assert IsNines(0, hi, 9, 1);
      assert IsStop(0, hi, 9);
    }
    assert s <= 9;
  }

  /** The end of an interval is followed by a multiple of the power that fits in it. */
  lemma EndIsAligned(lo: nat, hi: nat, a: nat, s: nat, c: nat)
    requires IsInterval(lo, hi, a, s) && a > 0
    requires Multiple(a, c) && a + Pow10(c) - 1 <= s
    ensures Multiple(s + 1, c)
  {
    assert Pow10(0) == 1;
    MultipleOf(s + 1, 0);
    StopCases(lo, hi, s);
    hide Nines, Zeros, Multiple, Pow10, IsStop;
    if c > 0 && !Multiple(s + 1, c) {
      ZerosIsFloor(hi + 1, c);
      Pow10AtLeast(c);
      MultipleShift(a, c, 1);
      if n: nat :| IsNines(lo, hi, s, n) {
        NinesEndsLow(lo, hi, a, s, c, n);
        assert false;
      } else if z: nat :| IsZeros(lo, hi, s, z) {
        ZerosIsFloor(hi + 1, z);
        if c <= z {
          MultipleDown(s + 1, c, z);
        } else {
          MultipleDown(Zeros(hi + 1, c) + 1, z, c);
        }
        ZerosStop(lo, hi, c);
        assert false;
      } else {
        ZerosStop(lo, hi, c);
        assert false;
      }
    }
  }

  lemma NinesEndsLow(lo: nat, hi: nat, a: nat, s: nat, c: nat, n: nat)
    requires lo <= a && Multiple(a, c) && a + Pow10(c) - 1 <= s && !Multiple(s + 1, c)
    ensures !IsNines(lo, hi, s, n)
  {
    hide Nines, Zeros, Multiple, Pow10;
    NinesIsCeiling(lo, n);
    if IsNines(lo, hi, s, n) {
      if c <= n {
        MultipleDown(s + 1, c, n);
      } else {
        MultipleDown(a, n, c);
        Pow10Step(n, c);
      }
    }
  }

  lemma Pow10Step(c: nat, d: nat)
    requires c < d
    ensures Pow10(c) < Pow10(d)
  {
    Pow10Monotone(c + 1, d);
  }

  /** No multiple of a power lies inside an interval that does not start at one. */
  lemma NoMultipleInside(lo: nat, hi: nat, a: nat, s: nat, c: nat)
    requires IsInterval(lo, hi, a, s) && c > 0 && !Multiple(a, c)
    ensures forall m :: a < m <= s ==> !Multiple(m, c)
  {
    forall m | a < m <= s
      ensures !Multiple(m, c)
    {
      if Multiple(m, c) {
        NinesIsCeiling(lo, c);
        var ceiling := Nines(lo, c) + 1;
        if ceiling > a {
          NinesStop(lo, hi, c);
        } else {
          StartBelowMultiple(lo, hi, a, a - 1, m, c);
        }
        assert false;
      }
    }
  }

  lemma StartBelowMultiple(lo: nat, hi: nat, a: nat, prev: nat, m: int, c: nat)
    requires lo <= prev == a - 1 && a < m <= hi
    requires Multiple(m, c) && !Multiple(a, c) && Nines(lo, c) < a
    ensures !IsStop(lo, hi, prev)
  {
    hide Nines, Zeros, Multiple, Pow10;
    NinesIsCeiling(lo, c);
    if n: nat :| IsNines(lo, hi, prev, n) {
      NinesIsCeiling(lo, n);
      if c <= n {
        MultipleDown(a, c, n);
      } else {
        MultipleDown(Nines(lo, c) + 1, n, c);
      }
    } else if z: nat :| IsZeros(lo, hi, prev, z) {
      ZerosIsFloor(hi + 1, z);
      if c <= z {
        MultipleDown(a, c, z);
      } else {
        MultipleDown(m, z, c);
      }
    }
  }
}
