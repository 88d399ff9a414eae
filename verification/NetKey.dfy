/** Trie keys of IP networks. */
module NetKey {
  import opened Arithmetic
  import opened Bits

  type Octet = x: int | 0 <= x < 256
  type Octets4 = s: seq<Octet> | |s| == 4 witness [0, 0, 0, 0]
  type Octets16 = s: seq<Octet> | |s| == 16 witness seq(16, i => 0)

  datatype IpAddr = V4(octets4: Octets4) | V6(octets16: Octets16) {
    predicate IsIpv6() {
      V6?
    }

    function Octets(): (o: seq<Octet>)
      ensures |o| == if IsIpv6() then 16 else 4
    {
      match this
      case V4(o) => o
      case V6(o) => o
    }
  }

  datatype AddrAndLen = AddrAndLen(addr: IpAddr, prefixLen: nat)

  function Width(isIpv6: bool): nat {
    if isIpv6 then 128 else 32
  }

  /** A network may carry host bits: only the prefix length is checked when it is made. */
  type IpNet = n: AddrAndLen | n.prefixLen <= Width(n.addr.IsIpv6()) witness AddrAndLen(V4([0, 0, 0, 0]), 0)

  // ---- Bits of octets, most significant first ----------------------------------------------

  function MsbValue(bits: seq<bool>): nat {
    if bits == [] then 0 else 2 * MsbValue(bits[..|bits| - 1]) + Bit(bits[|bits| - 1])
  }

  predicate OctetBit(o: Octet, i: nat)
    requires i < 8
  {
    o / Pow2(7 - i) % 2 == 1
  }

  function OctetBits(o: Octet): seq<bool> {
    seq(8, i requires 0 <= i < 8 => OctetBit(o, i))
  }

  function MsbBits(octets: seq<Octet>): seq<bool> {
    seq(8 * |octets|, i requires 0 <= i < 8 * |octets| => OctetBit(octets[i / 8], i % 8))
  }

  lemma {:induction false} MsbValueConcat(a: seq<bool>, b: seq<bool>)
    ensures MsbValue(a + b) == MsbValue(a) * Pow2(|b|) + MsbValue(b)
    ensures MsbValue(b) < Pow2(|b|)
  {
    if b == [] {
      assert a + b == a;
    } else {
      var front := b[..|b| - 1];
      MsbValueConcat(a, front);
      assert (a + b)[..|a + b| - 1] == a + front;
      TimesTwo(MsbValue(a), Pow2(|front|));
    }
  }

  lemma TimesTwo(x: int, y: int)
    ensures x * (2 * y) == 2 * (x * y)
  {
  }

  lemma LastBit(bits: seq<bool>)
    requires bits != []
    ensures MsbValue(bits) % 2 == Bit(bits[|bits| - 1])
  {
    hide Pow2;
    TwiceAndOne(MsbValue(bits[..|bits| - 1]), Bit(bits[|bits| - 1]));
  }

  lemma TwiceAndOne(x: nat, b: nat)
    requires b < 2
    ensures (2 * x + b) % 2 == b
  {
  }

  /** A bit is read off its number, and the number is made of its bits. */
  lemma MsbBitOf(bits: seq<bool>, i: nat)
    requires i < |bits|
    ensures MsbValue(bits) / Pow2(|bits| - 1 - i) % 2 == Bit(bits[i])
  {
    hide MsbValue, Pow2, Bit;
    var high, low := bits[..i + 1], bits[i + 1..];
    assert bits == high + low && |low| == |bits| - 1 - i && high[|high| - 1] == bits[i];
    MsbValueConcat(high, low);
    LastBit(high);
    DivUnique(MsbValue(bits), MsbValue(high), MsbValue(low), Pow2(|low|));
  }

  lemma {:induction false} BitsOfValue(n: nat, len: nat, bits: seq<bool>)
    requires |bits| == len && n < Pow2(len)
    requires forall i :: 0 <= i < len ==> Bit(bits[i]) == n / Pow2(len - 1 - i) % 2
    ensures MsbValue(bits) == n
    decreases len
  {
    if len > 0 {
      var front := bits[..len - 1];
      forall i | 0 <= i < len - 1
        ensures Bit(front[i]) == n / 2 / Pow2(len - 2 - i) % 2
      {
        HalfFirst(n, len - 2 - i);
      }
      BitsOfValue(n / 2, len - 1, front);
      assert Bit(bits[len - 1]) == n / Pow2(0) % 2;
    }
  }

  lemma HalfFirst(n: nat, k: nat)
    ensures n / 2 / Pow2(k) == n / Pow2(k + 1)
  {
    NestedDiv(n, 2, Pow2(k));
  }

  lemma OctetOfBits(bits: seq<bool>)
    requires |bits| == 8
    ensures 0 <= MsbValue(bits) < 256 && OctetBits(MsbValue(bits)) == bits
  {
    MsbValueConcat([], bits);
    assert [] + bits == bits;
    assert Pow2(4) == 16;
    forall i | 0 <= i < 8
      ensures OctetBit(MsbValue(bits), i) == bits[i]
    {
      MsbBitOf(bits, i);
    }
  }

  lemma BitsOfOctet(o: Octet)
    ensures MsbValue(OctetBits(o)) == o
  {
    assert Pow2(4) == 16;
    BitsOfValue(o, 8, OctetBits(o));
  }

  /** `set` through the bit view of an octet. */
  function SetOctetBit(o: Octet, i: nat, b: bool): (o': Octet)
    requires i < 8
    ensures forall j :: 0 <= j < 8 ==> OctetBit(o', j) == if j == i then b else OctetBit(o, j)
  {
    var bits := OctetBits(o)[i := b];
    OctetOfBits(bits);
    assert forall j :: 0 <= j < 8 ==> OctetBit(MsbValue(bits), j) == OctetBits(MsbValue(bits))[j];
    MsbValue(bits)
  }

  // ---- Addresses as numbers ----------------------------------------------------------------

  /** The address as a number: its octets in network order. */
  function AddrValue(octets: seq<Octet>): nat {
    if octets == [] then 0 else 256 * AddrValue(octets[..|octets| - 1]) + octets[|octets| - 1]
  }

  lemma {:induction false} AddrValueIsMsbValue(octets: seq<Octet>)
    ensures AddrValue(octets) == MsbValue(MsbBits(octets))
  {
    if octets != [] {
      hide OctetBit;
      var last := |octets| - 1;
      AddrValueIsMsbValue(octets[..last]);
      BitsOfOctet(octets[last]);
      MsbBitsSplit(octets);
      MsbValueConcat(MsbBits(octets[..last]), OctetBits(octets[last]));
      EightBits();
      hide Pow2, MsbValue, MsbBits;
      assert |OctetBits(octets[last])| == 8;
    }
  }

  lemma EightBits()
    ensures Pow2(8) == 256
  {
    assert Pow2(4) == 16;
  }

  lemma MsbBitsSplit(octets: seq<Octet>)
    requires octets != []
    ensures var last := |octets| - 1;
            MsbBits(octets) == MsbBits(octets[..last]) + OctetBits(octets[last])
  {
    hide OctetBit;
  }

  lemma MsbBitsAt(octets: seq<Octet>, k: nat)
    requires k < |octets|
    ensures OctetBits(octets[k]) == MsbBits(octets)[8 * k..8 * k + 8]
  {
    hide OctetBit;
  }

  /** Octets are determined by their bits. */
  lemma MsbBitsInjective(a: seq<Octet>, b: seq<Octet>)
    requires |a| == |b| && MsbBits(a) == MsbBits(b)
    ensures a == b
  {
    forall k | 0 <= k < |a|
      ensures a[k] == b[k]
    {
      MsbBitsAt(a, k);
      MsbBitsAt(b, k);
      BitsOfOctet(a[k]);
      BitsOfOctet(b[k]);
    }
  }

  // ---- to_key and from_key -----------------------------------------------------------------

  function NetBits(n: IpNet): (bits: seq<bool>)
    ensures |bits| == Width(n.addr.IsIpv6())
  {
    MsbBits(n.addr.Octets())
  }

  function ToKey(n: IpNet): Key {
    [n.addr.IsIpv6()] + NetBits(n)[..n.prefixLen]
  }

  /** Keys that `from_key` accepts: a family bit, then no more bits than the family's addresses have. */
  predicate IsNetKey(key: Key) {
    key != [] && |key| - 1 <= Width(key[0])
  }

  /** The network a key stands for: the bits past the key are zero. */
  ghost predicate IsNetOf(key: Key, n: IpNet) {
    && IsNetKey(key)
    && n.addr.IsIpv6() == key[0] && n.prefixLen == |key| - 1
    && forall j :: 0 <= j < Width(key[0]) ==> NetBits(n)[j] == (j < |key| - 1 && key[1 + j])
  }

  method FromKey(key: Key) returns (n: IpNet)
    requires IsNetKey(key)
    ensures n == NetOf(key)
  {
    var isIpv6, bits := key[0], key[1..];
    var octets := new Octet[if isIpv6 then 16 else 4](_ => 0);
    assert forall j :: 0 <= j < 8 ==> !OctetBit(0, j);
    var i := 0;
    while i < |bits|
      invariant 0 <= i <= |bits|
      invariant forall j :: 0 <= j < 8 * octets.Length ==> OctetBit(octets[j / 8], j % 8) == (j < i && bits[j])
    {
      octets[i / 8] := SetOctetBit(octets[i / 8], i % 8, bits[i]);
      i := i + 1;
    }
    var addr := if isIpv6 then V6(octets[..]) else V4(octets[..]);
    n := AddrAndLen(addr, |bits|);
    NetOfIsUnique(key, n, NetOf(key));
  }

  function NetOf(key: Key): (n: IpNet)
    requires IsNetKey(key)
    ensures IsNetOf(key, n)
  {
    var size := if key[0] then 16 else 4;
    var bits := key[1..] + seq(8 * size - (|key| - 1), i => false);
    var octets := PackOctets(bits, size);
    AddrAndLen(if key[0] then V6(octets) else V4(octets), |key| - 1)
  }

  function PackOctets(bits: seq<bool>, size: nat): (octets: seq<Octet>)
    requires |bits| == 8 * size
    ensures |octets| == size && MsbBits(octets) == bits
  {
    var octets := seq(size, k requires 0 <= k < size => OctetAt(bits, k));
    assert forall j :: 0 <= j < 8 * size ==> OctetBit(octets[j / 8], j % 8) == bits[8 * (j / 8) + j % 8];
    octets
  }

  function OctetAt(bits: seq<bool>, k: nat): (o: Octet)
    requires 8 * k + 8 <= |bits|
    ensures forall i :: 0 <= i < 8 ==> OctetBit(o, i) == bits[8 * k + i]
  {
    var slice := bits[8 * k..8 * k + 8];
    OctetOfBits(slice);
    assert forall i :: 0 <= i < 8 ==> OctetBits(MsbValue(slice))[i] == slice[i];
    MsbValue(slice)
  }

  lemma NetOfIsUnique(key: Key, n: IpNet, n': IpNet)
    requires IsNetOf(key, n) && IsNetOf(key, n')
    ensures n == n'
  {
    assert NetBits(n) == NetBits(n');
    MsbBitsInjective(n.addr.Octets(), n'.addr.Octets());
  }

  /** Reading a key and writing it again gives the key. */
  lemma KeyRoundTrip(key: Key)
    requires IsNetKey(key)
    ensures ToKey(NetOf(key)) == key
  {
  }

  function HostBits(n: IpNet): nat {
    Width(n.addr.IsIpv6()) - n.prefixLen
  }

  function NetValue(n: IpNet): nat {
    AddrValue(n.addr.Octets())
  }

  /** First and last address of a network. */
  function First(n: IpNet): int {
    NetValue(n) - NetValue(n) % Pow2(HostBits(n))
  }

  function Last(n: IpNet): int {
    First(n) + Pow2(HostBits(n)) - 1
  }

  lemma ToKeyIsNetKey(n: IpNet)
    ensures IsNetKey(ToKey(n)) && |ToKey(n)| == 1 + n.prefixLen
  {
  }

  lemma HostBitsCleared(n: IpNet)
    ensures var n' := NetOf(ToKey(n));
            NetValue(n') == MsbValue(NetBits(n)[..n.prefixLen]) * Pow2(HostBits(n))
  {
    hide AddrValue, MsbValue, MsbBits, NetOf, Pow2;
    var n' := NetOf(ToKey(n));
    var len, bits, bits' := n.prefixLen, NetBits(n), NetBits(n');
    assert bits'[..len] == bits[..len] by {
      forall j | 0 <= j < len
        ensures bits'[j] == bits[j]
      {
        assert bits'[j] == ToKey(n)[1 + j];
      }
    }
    AllClear(bits'[len..]);
    assert bits' == bits'[..len] + bits'[len..];
    MsbValueConcat(bits'[..len], bits'[len..]);
    AddrValueIsMsbValue(n'.addr.Octets());
  }

  /** Writing a network and reading it back clears its host bits, and nothing else. */
  lemma NetRoundTrip(n: IpNet)
    ensures IsNetKey(ToKey(n))
    ensures var n' := NetOf(ToKey(n));
            && n'.addr.IsIpv6() == n.addr.IsIpv6() && n'.prefixLen == n.prefixLen
            && NetValue(n') == First(n)
  {
    hide AddrValue, MsbValue, MsbBits, NetOf, Pow2;
    HostBitsCleared(n);
    PrefixValue(n);
    QuotientBounds(NetValue(n), Pow2(HostBits(n)));
  }

  lemma {:induction false} AllClear(bits: seq<bool>)
    requires forall i :: 0 <= i < |bits| ==> !bits[i]
    ensures MsbValue(bits) == 0
  {
    if bits != [] {
      AllClear(bits[..|bits| - 1]);
    }
  }

  /** The leading bits are the address divided by the size of the network. */
  lemma PrefixValue(n: IpNet)
    ensures MsbValue(NetBits(n)[..n.prefixLen]) == NetValue(n) / Pow2(HostBits(n))
  {
    var bits, len := NetBits(n), n.prefixLen;
    assert bits == bits[..len] + bits[len..];
    MsbValueConcat(bits[..len], bits[len..]);
    AddrValueIsMsbValue(n.addr.Octets());
    DivUnique(NetValue(n), MsbValue(bits[..len]), MsbValue(bits[len..]), Pow2(HostBits(n)));
  }

  // ---- Containment -------------------------------------------------------------------------

  /** The numbers of one block of `m` are those with the same quotient. */
  lemma SameBlock(x: nat, y: nat, m: nat)
    requires m > 0
    ensures x - x % m <= y <= x - x % m + m - 1 <==> x / m == y / m
  {
    QuotientBounds(x, m);
    QuotientAtLeast(y, x / m, m);
    QuotientAtLeast(y, x / m + 1, m);
    DistributeSum(x / m, 1, m);
  }

  /** The addresses from the first to the last of a network are those that share its leading bits. */
  lemma AddressesOf(n: IpNet, addr: IpAddr)
    requires addr.IsIpv6() == n.addr.IsIpv6()
    ensures First(n) <= AddrValue(addr.Octets()) <= Last(n) <==>
            MsbBits(addr.Octets())[..n.prefixLen] == NetBits(n)[..n.prefixLen]
  {
    hide AddrValue, MsbValue, MsbBits, Pow2;
    var other: IpNet := n.(addr := addr);
    PrefixValue(n);
    PrefixValue(other);
    var x, y, m := NetValue(n), NetValue(other), Pow2(HostBits(n));
    SameBlock(x, y, m);
    hide First, Last, NetValue, HostBits;
    var a, b := NetBits(n)[..n.prefixLen], NetBits(other)[..n.prefixLen];
    if MsbValue(a) == MsbValue(b) {
      MsbValueInjective(a, b);
    }
  }

  /** Every address of `b` is one of `a`. */
  predicate Contains(a: IpNet, b: IpNet) {
    a.addr.IsIpv6() == b.addr.IsIpv6() && First(a) <= First(b) && Last(b) <= Last(a)
  }

  /** Containment of networks is the prefix order of their keys. */
  lemma ContainsIsPrefix(a: IpNet, b: IpNet)
    ensures ToKey(a) <= ToKey(b) <==> Contains(a, b)
  {
    if a.addr.IsIpv6() == b.addr.IsIpv6() {
      if a.prefixLen <= b.prefixLen {
        LongerPrefix(a, b);
        SameLeadingBits(a, b);
      } else {
        ShorterPrefix(a, b);
      }
    } else {
      assert ToKey(a)[0] != ToKey(b)[0];
    }
  }

  lemma {:induction false} MsbValueInjective(x: seq<bool>, y: seq<bool>)
    requires |x| == |y| && MsbValue(x) == MsbValue(y)
    ensures x == y
  {
    if x != [] {
      var i := |x| - 1;
      MsbValueInjective(x[..i], y[..i]);
      assert x == x[..i] + [x[i]] && y == y[..i] + [y[i]];
    }
  }

  lemma SameLeadingBits(a: IpNet, b: IpNet)
    requires a.addr.IsIpv6() == b.addr.IsIpv6() && a.prefixLen <= b.prefixLen
    ensures ToKey(a) <= ToKey(b) <==> NetValue(a) / Pow2(HostBits(a)) == NetValue(b) / Pow2(HostBits(a))
  {
    hide AddrValue, MsbValue, MsbBits;
    var len := a.prefixLen;
    var b': IpNet := b.(prefixLen := len);
    PrefixValue(a);
    PrefixValue(b');
    var x, y := NetBits(a)[..len], NetBits(b)[..len];
    assert x == y <==> ToKey(a) <= ToKey(b) by {
      assert ToKey(b)[..1 + len] == [b.addr.IsIpv6()] + y;
      assert ToKey(a)[1..] == x && ToKey(b)[1..1 + len] == y;
    }
    if MsbValue(x) == MsbValue(y) {
      MsbValueInjective(x, y);
    }
  }

  lemma LongerPrefix(a: IpNet, b: IpNet)
    requires a.addr.IsIpv6() == b.addr.IsIpv6() && a.prefixLen <= b.prefixLen
    ensures Contains(a, b) <==> NetValue(a) / Pow2(HostBits(a)) == NetValue(b) / Pow2(HostBits(a))
  {
    hide AddrValue;
    var p, r := Pow2(HostBits(a)), Pow2(HostBits(b));
    var k := Pow2(HostBits(a) - HostBits(b));
    PowerSplit(HostBits(b), HostBits(a) - HostBits(b));
    RangesAgree(NetValue(a), NetValue(b), k, r, p);
  }

  lemma {:induction false} PowerSplit(a: nat, b: nat)
    ensures Pow2(a + b) == Pow2(b) * Pow2(a)
  {
    if b > 0 {
      PowerSplit(a, b - 1);
      TimesTwo(Pow2(a), Pow2(b - 1));
      assert Pow2(a + b) == 2 * Pow2(a + b - 1);
    }
  }

  /** Aligned ranges of sizes `p = k * r` and `r`: the small one lies in the large one iff a member of it does. */
  lemma NestedRanges(q: nat, m: nat, k: nat, r: nat, p: nat, y: nat)
    requires r > 0 && p == k * r && m * r <= y < m * r + r
    ensures q * p <= m * r && m * r + r <= q * p + p <==> q * p <= y < q * p + p
  {
    var from, to := q * k, (q + 1) * k;
    assert q * p == from * r by {
      Associate(q, k, r);
    }
    assert q * p + p == to * r by {
      Associate(q + 1, k, r);
      Distribute(q + 1, q, p);
    }
    assert (m + 1) * r == m * r + r by {
      Distribute(m + 1, m, r);
    }
    MulOrder(from, m, r);
    MulOrder(m + 1, to, r);
    DivUnique(y, m, y - m * r, r);
    QuotientAtLeast(y, from, r);
    QuotientAtLeast(y, to, r);
  }

  lemma RangesAgree(x: nat, y: nat, k: nat, r: nat, p: nat)
    requires r > 0 && p > 0 && p == k * r
    ensures x - x % p <= y - y % r && y - y % r + r - 1 <= x - x % p + p - 1 <==> x / p == y / p
  {
    var q, m := x / p, y / r;
    Euclid(x, p);
    Euclid(y, r);
    NestedRanges(q, m, k, r, p, y);
    QuotientIs(y, q, p);
  }

  lemma ShorterPrefix(a: IpNet, b: IpNet)
    requires a.addr.IsIpv6() == b.addr.IsIpv6() && a.prefixLen > b.prefixLen
    ensures !Contains(a, b) && !(ToKey(a) <= ToKey(b))
  {
    hide AddrValue;
    PowerSplit(HostBits(a), HostBits(b) - HostBits(a));
    assert Pow2(HostBits(b) - HostBits(a)) >= 2;
    MulAtLeast(Pow2(HostBits(b) - HostBits(a)) - 1, Pow2(HostBits(a)));
    Distribute(Pow2(HostBits(b) - HostBits(a)), 1, Pow2(HostBits(a)));
  }
}
