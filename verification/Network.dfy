/** IPv4 address ranges: the block that covers the pod and the service network, and the address to bind to. */
module Network {
  import opened Arithmetic
  import opened Prelude

  type Octet = o: int | 0 <= o < 256

  type Address = a: seq<Octet> | |a| == 4 witness [0, 0, 0, 0]

  /** The first `k` octets of an address as one number, in network byte order. */
  function Head(a: Address, k: nat): nat
    requires k <= 4
  {
    if k == 0 then 0 else Head(a, k - 1) * 256 + a[k - 1]
  }

  /** The address as a 32-bit number. */
  function Value(a: Address): nat {
    Head(a, 4)
  }

  /** The first `n` of the 32 bits of `x`. */
  function Prefix(x: nat, n: nat): int
    requires n <= 32
  {
    x / Pow2(32 - n)
  }

  /** The largest `m`, at most `n`, such that `x` and `y` agree in their first `m` bits. */
  function CommonBits(x: nat, y: nat, n: nat): (m: nat)
    requires n <= 32
    ensures m <= n
  {
    if n == 0 || Prefix(x, n) == Prefix(y, n) then n else CommonBits(x, y, n - 1)
  }

  // ---- Bits of one octet

  /** The tested bit of an octet; `mask` has exactly one bit set. */
  function Bit(o: Octet, mask: nat): nat
    requires mask > 0
  {
    (o / mask) % 2
  }

  /** How many leading bits two different octets have in common. */
  function OctetCommon(p: Octet, s: Octet, n: nat): (m: nat)
    requires n <= 7
    ensures m <= n
  {
    if n == 0 || p / Pow2(8 - n) == s / Pow2(8 - n) then n else OctetCommon(p, s, n - 1)
  }

  /** The last octet in which the addresses differ, among the first `n`. */
  function LastDiverging(p: Address, s: Address, n: nat): (r: Option<nat>)
    requires n <= 4
    ensures r.Some? ==> r.value < n && p[r.value] != s[r.value] && forall i :: r.value < i < n ==> p[i] == s[i]
    ensures r.None? ==> forall i :: 0 <= i < n ==> p[i] == s[i]
  {
    if n == 0 then None else if p[n - 1] != s[n - 1] then Some(n - 1) else LastDiverging(p, s, n - 1)
  }

  /** The prefix length the loop ends with: it goes by the last diverging octet. */
  function Offset(p: Address, s: Address, n: nat): (r: nat)
    requires n <= 4
    ensures r <= 8 * n
  {
    match LastDiverging(p, s, n)
    case None => 0
    case Some(i) => 8 * i + OctetCommon(p[i], s[i], 7)
  }

  function ServiceBelow(p: Address, s: Address, n: nat): bool
    requires n <= 4
  {
    match LastDiverging(p, s, n)
    case None => false
    case Some(i) => s[i] < p[i]
  }

  /** Two octets agree in their first `k` bits. */
  ghost predicate Agree(p: Octet, s: Octet, k: nat)
    requires k <= 8
  {
    p / Pow2(8 - k) == s / Pow2(8 - k)
  }

  /** The mask that tests bit `k`; it has run out after 8 bits. */
  function Mask(k: nat): nat {
    if k < 8 then Pow2(7 - k) else 0
  }

  lemma FirstMask(p: Octet, s: Octet)
    ensures Mask(0) == 128 && Agree(p, s, 0)
  {
    assert Pow2(7) == 128 by { assert Pow2(3) == 8; }
  }

  /** The mask loop: the position of the first bit in which two different octets differ. */
  method FirstDifferentBit(p: Octet, s: Octet) returns (bits: nat)
    requires p != s
    ensures bits == OctetCommon(p, s, 7) + 1
  {
    FirstMask(p, s);
    bits := 0;
    var mask := 128;
    while mask > 0
      invariant 0 <= bits <= 8 && mask == Mask(bits) && Agree(p, s, bits)
      decreases mask
    {
      NextBit(p, s, bits);
      bits := bits + 1;
      if Bit(p, mask) != Bit(s, mask) {
        return;
      }
      mask := mask / 2;
    }
  }

  /**
   * Octets that agree in `k` bits agree in one more if the next bit is the same; if not, `k`
   * is all they have in common.
   */
  lemma NextBit(p: Octet, s: Octet, k: nat)
    requires k < 8 && Agree(p, s, k)
    ensures Mask(k) > 0 && Mask(k) / 2 == Mask(k + 1)
    ensures Bit(p, Mask(k)) == Bit(s, Mask(k)) <==> Agree(p, s, k + 1)
    ensures !Agree(p, s, k + 1) ==> OctetCommon(p, s, 7) == k
  {
    Halve(p, Pow2(7 - k));
    Halve(s, Pow2(7 - k));
    assert Pow2(8 - k) == 2 * Pow2(7 - k);
    if !Agree(p, s, k + 1) {
      OctetCommonIs(p, s, k, 7);
    }
  }

  lemma {:induction false} OctetCommonIs(p: Octet, s: Octet, k: nat, n: nat)
    requires k <= n <= 7
    requires p / Pow2(8 - k) == s / Pow2(8 - k) && p / Pow2(7 - k) != s / Pow2(7 - k)
    ensures OctetCommon(p, s, n) == k
  {
    if n > k {
      OctetsStayDifferent(p, s, k, n);
      OctetCommonIs(p, s, k, n - 1);
    }
  }

  lemma {:induction false} OctetsStayDifferent(p: Octet, s: Octet, k: nat, n: nat)
    requires k < n <= 7
    requires p / Pow2(7 - k) != s / Pow2(7 - k)
    ensures p / Pow2(8 - n) != s / Pow2(8 - n)
  {
    if n > k + 1 {
      OctetsStayDifferent(p, s, k, n - 1);
      Halve(p, Pow2(8 - n));
      Halve(s, Pow2(8 - n));
    }
  }

  /** The nested loops. The outer one goes on after a diverging octet. */
  method DivergingBit(pod: Address, service: Address) returns (baseOffset: nat, serviceBelowPod: bool)
    ensures baseOffset == Offset(pod, service, 4)
    ensures serviceBelowPod == ServiceBelow(pod, service, 4)
  {
    baseOffset, serviceBelowPod := 0, false;
    for idx := 0 to 4
      invariant baseOffset == Offset(pod, service, idx) && serviceBelowPod == ServiceBelow(pod, service, idx)
    {
      if pod[idx] != service[idx] {
        var bits := FirstDifferentBit(pod[idx], service[idx]);
        baseOffset := idx * 8 + bits - 1;
        serviceBelowPod := service[idx] < pod[idx];
      }
    }
  }

  // ---- The loop against the longest common prefix

  lemma {:induction false} PrefixShorter(x: nat, y: nat, m: nat, n: nat)
    requires m <= n <= 32 && Prefix(x, n) == Prefix(y, n)
    ensures Prefix(x, m) == Prefix(y, m)
    decreases n - m
  {
    if m < n {
      Halve(x, Pow2(32 - n));
      Halve(y, Pow2(32 - n));
      PrefixShorter(x, y, m, n - 1);
    }
  }

  lemma {:induction false} CommonBitsIs(x: nat, y: nat, k: nat, n: nat)
    requires k <= n <= 32 && Prefix(x, k) == Prefix(y, k)
    requires k < n ==> Prefix(x, k + 1) != Prefix(y, k + 1)
    ensures CommonBits(x, y, n) == k
  {
    if k < n {
      if Prefix(x, n) == Prefix(y, n) {
        PrefixShorter(x, y, k + 1, n);
        assert false;
      }
      CommonBitsIs(x, y, k, n - 1);
    }
  }

  /** Cutting whole octets off an address. */
  lemma {:induction false} HeadIsQuotient(a: Address, k: nat)
    requires k <= 4
    ensures Value(a) / Pow2(8 * (4 - k)) == Head(a, k)
    decreases 4 - k
  {
    if k == 4 {
      assert Pow2(0) == 1;
    } else {
      var d := Pow2(8 * (3 - k));
      HeadIsQuotient(a, k + 1);
      Pow2Adds(8, 8 * (3 - k));
      assert Pow2(8) == 256 by { assert Pow2(4) == 16; }
      DivTwice(Value(a), d, 256);
    }
  }

  /** Cutting all but the first `j` bits off the last octet of a head. */
  lemma SplitOctet(h: nat, x: Octet, j: nat)
    requires j <= 8
    ensures (h * 256 + x) / Pow2(8 - j) == h * Pow2(j) + x / Pow2(8 - j)
  {
    Pow2Adds(j, 8 - j);
    assert Pow2(8) == 256 by { assert Pow2(4) == 16; }
    SplitQuotient(h, x, Pow2(j), Pow2(8 - j));
  }

  lemma SplitQuotient(h: nat, x: nat, e: nat, d: nat)
    requires d > 0 && e * d == 256
    ensures (h * 256 + x) / d == h * e + x / d
  {
    var q, r := x / d, x % d;
    assert x == q * d + r;
    assert h * (e * d) == (h * e) * d;
    assert (h * e + q) * d == (h * e) * d + q * d;
    DivUnique(h * 256 + x, d, h * e + q, r);
  }

  /** A prefix that ends inside octet `f`. */
  lemma PrefixInOctet(a: Address, f: nat, j: nat)
    requires f < 4 && j <= 8
    ensures Prefix(Value(a), 8 * f + j) == Head(a, f) * Pow2(j) + a[f] / Pow2(8 - j)
  {
    HeadIsQuotient(a, f + 1);
    Pow2Adds(8 - j, 8 * (3 - f));
    DivTwice(Value(a), Pow2(8 * (3 - f)), Pow2(8 - j));
    SplitOctet(Head(a, f), a[f], j);
  }

  lemma {:induction false} HeadsAgree(a: Address, b: Address, k: nat)
    requires k <= 4 && forall i :: 0 <= i < k ==> a[i] == b[i]
    ensures Head(a, k) == Head(b, k)
  {
    if k > 0 {
      HeadsAgree(a, b, k - 1);
    }
  }

  lemma {:induction false} OctetCommonMeans(p: Octet, s: Octet, n: nat)
    requires n <= 7 && p / Pow2(7 - n) != s / Pow2(7 - n)
    ensures var k := OctetCommon(p, s, n);
            p / Pow2(8 - k) == s / Pow2(8 - k) && p / Pow2(7 - k) != s / Pow2(7 - k)
  {
    if n == 0 {
      assert Pow2(8) == 256 by { assert Pow2(4) == 16; }
    } else if p / Pow2(8 - n) != s / Pow2(8 - n) {
      OctetCommonMeans(p, s, n - 1);
    }
  }

  /** The longest common prefix ends in the first diverging octet. */
  lemma CommonBitsEndIn(p: Address, s: Address, f: nat)
    requires f < 4 && p[f] != s[f] && forall i :: 0 <= i < f ==> p[i] == s[i]
    ensures CommonBits(Value(p), Value(s), 32) == 8 * f + OctetCommon(p[f], s[f], 7)
  {
    assert Pow2(0) == 1;
    OctetCommonMeans(p[f], s[f], 7);
    var j := OctetCommon(p[f], s[f], 7);
    HeadsAgree(p, s, f);
    PrefixInOctet(p, f, j);
    PrefixInOctet(s, f, j);
    PrefixInOctet(p, f, j + 1);
    PrefixInOctet(s, f, j + 1);
    CommonBitsIs(Value(p), Value(s), 8 * f + j, 32);
  }

  ghost predicate DifferInOneOctet(p: Address, s: Address) {
    exists i :: 0 <= i < 4 && p[i] != s[i] && forall k :: 0 <= k < 4 && k != i ==> p[k] == s[k]
  }

  function FirstDiverging(p: Address, s: Address, n: nat): (f: nat)
    requires n <= 4 && forall i :: 0 <= i < n ==> p[i] == s[i]
    requires p != s
    ensures f < 4 && p[f] != s[f] && forall i :: 0 <= i < f ==> p[i] == s[i]
    decreases 4 - n
  {
    if n < 4 && p[n] == s[n] then FirstDiverging(p, s, n + 1) else n
  }

  /**
   * The loop finds the longest common prefix of two network addresses if and only if they
   * differ in exactly one octet: it ends in the last diverging octet, the prefix in the
   * first, and for equal addresses the loop says 0.
   */
  lemma LoopFindsCommonPrefix(p: Address, s: Address)
    ensures Offset(p, s, 4) == CommonBits(Value(p), Value(s), 32) <==> DifferInOneOctet(p, s)
    ensures DifferInOneOctet(p, s) || p == s || Offset(p, s, 4) > CommonBits(Value(p), Value(s), 32)
    ensures p == s ==> Offset(p, s, 4) == 0
  {
    var last := LastDiverging(p, s, 4);
    if p != s {
      var f := FirstDiverging(p, s, 0);
      CommonBitsEndIn(p, s, f);
      assert last.Some? && f <= last.value;
    }
  }

  /**
   * serviceBelowPod compares the addresses as numbers if and only if they are equal, or the
   * last diverging octet and the first, which decides the comparison, differ in the same direction.
   */
  lemma ServiceBelowIffs(p: Address, s: Address)
    ensures (ServiceBelow(p, s, 4) <==> Value(s) < Value(p)) <==>
            (p == s || (var f, l := FirstDiverging(p, s, 0), LastDiverging(p, s, 4).value;
                        s[f] < p[f] <==> s[l] < p[l]))
  {
    if p != s {
      var f := FirstDiverging(p, s, 0);
      HeadsAgree(p, s, f);
      if p[f] < s[f] {
        HeadOrderStays(p, s, f + 1, 4);
      } else {
        HeadOrderStays(s, p, f + 1, 4);
      }
    }
  }

  /** A difference between the first octets decides the comparison. */
  lemma {:induction false} HeadOrderStays(p: Address, s: Address, k: nat, n: nat)
    requires k <= n <= 4 && Head(p, k) < Head(s, k)
    ensures Head(p, n) < Head(s, n)
  {
    if n > k {
      HeadOrderStays(p, s, k, n - 1);
    }
  }

  /** In particular it does when one octet differs. */
  lemma ServiceBelowIsLess(p: Address, s: Address)
    requires DifferInOneOctet(p, s)
    ensures ServiceBelow(p, s, 4) <==> Value(s) < Value(p)
  {
    ServiceBelowIffs(p, s);
    var f, l := FirstDiverging(p, s, 0), LastDiverging(p, s, 4).value;
    assert f == l;
  }

  // ---- The cluster block

  /** A parsed range: the address as given and the length of the network prefix. */
  datatype Cidr = Cidr(ip: Address, network: Address, ones: nat)

  /** What parsing guarantees: the network address is the given one with all host bits cleared. */
  ghost predicate Parsed(c: Cidr) {
    && c.ones <= 32
    && Prefix(Value(c.ip), c.ones) == Prefix(Value(c.network), c.ones)
    && Value(c.network) % Pow2(32 - c.ones) == 0
  }

  /** The block of all addresses that share the first `n` bits of `base`. */
  ghost predicate InBlock(x: nat, base: nat, n: nat)
    requires n <= 32
  {
    Prefix(x, n) == Prefix(base, n)
  }

  ghost predicate Covers(base: nat, n: nat, c: Cidr)
    requires n <= 32 && c.ones <= 32
  {
    forall x: nat :: InBlock(x, Value(c.network), c.ones) ==> InBlock(x, base, n)
  }

  ghost predicate Disjoint(c: Cidr, d: Cidr)
    requires c.ones <= 32 && d.ones <= 32
  {
    forall x: nat :: !(InBlock(x, Value(c.network), c.ones) && InBlock(x, Value(d.network), d.ones))
  }

  /** The base the code picks, and its prefix length. */
  function ClusterBase(p: Cidr, s: Cidr): Address {
    if ServiceBelow(p.network, s.network, 4) then s.ip else p.ip
  }

  function ClusterOnes(p: Cidr, s: Cidr): nat {
    Offset(p.network, s.network, 4)
  }

  datatype Ranges = Ranges(pod: Cidr, service: Cidr, clusterBase: Address, clusterOnes: nat,
                           bind: Address, firstService: Address)

  /** `pod` and `service` are the results of parsing, None after a parse error. */
  method CalculateIPRanges(pod: Option<Cidr>, service: Option<Cidr>, bind: Address) returns (r: Option<Ranges>)
    ensures r.Some? <==> pod.Some? && service.Some?
    ensures r.Some? ==>
              var p, s := pod.value, service.value;
              r.value == Ranges(p, s, ClusterBase(p, s), ClusterOnes(p, s), bind, s.ip)
  {
    if pod.None? || service.None? {
      return None;
    }
    var baseOffset, serviceBelowPod := DivergingBit(pod.value.network, service.value.network);
    var clusterBase := pod.value.ip;
    if serviceBelowPod {
      clusterBase := service.value.ip;
    }
    r := Some(Ranges(pod.value, service.value, clusterBase, baseOffset, bind, service.value.ip));
  }

  /** A block whose prefix is no longer than the network's covers it if it contains its address. */
  lemma ShorterPrefixCovers(base: nat, n: nat, c: Cidr)
    requires n <= c.ones <= 32 && InBlock(Value(c.network), base, n)
    ensures Covers(base, n, c)
  {
    forall x: nat | InBlock(x, Value(c.network), c.ones) ensures InBlock(x, base, n) {
      PrefixShorter(x, Value(c.network), n, c.ones);
    }
  }

  /** A block with a longer prefix misses an address of the network. */
  lemma LongerPrefixMisses(base: nat, n: nat, c: Cidr)
    requires Parsed(c) && c.ones < n <= 32
    ensures !Covers(base, n, c)
  {
    var a, d, e := Value(c.network), Pow2(32 - n), Pow2(n - c.ones);
    Pow2Adds(n - c.ones, 32 - n);
    Pow2AtLeastTwo(n - c.ones);
    NextBlock(a, e, d);
    assert InBlock(a, a, c.ones) && InBlock(a + d, a, c.ones);
  }

  /** The blocks of length `d` at `a` and after it differ but lie in the same block of length `e * d`. */
  lemma NextBlock(a: nat, e: nat, d: nat)
    requires e >= 2 && d >= 1 && e * d > 0 && a % (e * d) == 0
    ensures (a + d) / d == a / d + 1 && (a + d) / (e * d) == a / (e * d)
  {
    var k := a / (e * d);
    assert a == k * (e * d);
    Regroup(k, e, 0, d);
    Regroup(k, e, 1, d);
    DivUnique(a, d, k * e, 0);
    DivUnique(a + d, d, k * e + 1, 0);
    Scale(2, e, d);
    DivUnique(a + d, e * d, k, d);
  }

  lemma Pow2AtLeastTwo(n: nat)
    requires n > 0
    ensures Pow2(n) >= 2
  {
  }

  /** Two addresses that differ within the prefix are not in one block. */
  lemma PastCommonBits(x: nat, y: nat, n: nat)
    requires CommonBits(x, y, 32) < n <= 32
    ensures Prefix(x, n) != Prefix(y, n)
  {
    CommonBitsBound(x, y, n, 32);
  }

  lemma {:induction false} CommonBitsBound(x: nat, y: nat, n: nat, m: nat)
    requires m <= 32 && CommonBits(x, y, m) < n <= m
    ensures Prefix(x, n) != Prefix(y, n)
  {
    if n < m {
      CommonBitsBound(x, y, n, m - 1);
    }
  }

  /** CommonBits is the length of the longest common prefix. */
  lemma CommonBitsIsLongest(p: Address, s: Address, n: nat)
    requires n <= 32
    ensures n <= CommonBits(Value(p), Value(s), 32) <==> Prefix(Value(p), n) == Prefix(Value(s), n)
  {
    var x, y := Value(p), Value(s);
    NoBitsInCommon(p);
    NoBitsInCommon(s);
    CommonBitsAgree(x, y, 32);
    if n <= CommonBits(x, y, 32) {
      PrefixShorter(x, y, n, CommonBits(x, y, 32));
    } else {
      PastCommonBits(x, y, n);
    }
  }

  lemma {:induction false} CommonBitsAgree(x: nat, y: nat, m: nat)
    requires m <= 32 && Prefix(x, 0) == Prefix(y, 0)
    ensures Prefix(x, CommonBits(x, y, m)) == Prefix(y, CommonBits(x, y, m))
  {
    if m > 0 && Prefix(x, m) != Prefix(y, m) {
      CommonBitsAgree(x, y, m - 1);
    }
  }

  lemma NoBitsInCommon(a: Address)
    ensures Prefix(Value(a), 0) == 0
  {
    HeadIsQuotient(a, 0);
  }

  /**
   * For every pair of ranges, the cluster block covers both networks if and only if their
   * network addresses are the same, or differ in one octet and no later than in the last
   * bit of either prefix.
   */
  lemma ClusterCovers(p: Cidr, s: Cidr)
    requires Parsed(p) && Parsed(s)
    ensures ClusterOnes(p, s) <= 32
    ensures var base, n := Value(ClusterBase(p, s)), ClusterOnes(p, s);
            var common := CommonBits(Value(p.network), Value(s.network), 32);
            (Covers(base, n, p) && Covers(base, n, s)) <==>
            (p.network == s.network || (DifferInOneOctet(p.network, s.network) && common <= p.ones && common <= s.ones))
  {
    var a, b := Value(p.network), Value(s.network);
    var base, n := Value(ClusterBase(p, s)), ClusterOnes(p, s);
    LoopFindsCommonPrefix(p.network, s.network);
    if n > p.ones {
      LongerPrefixMisses(base, n, p);
    } else if n > s.ones {
      LongerPrefixMisses(base, n, s);
    } else {
      BaseInOwnBlock(p, n);
      BaseInOwnBlock(s, n);
      if p.network == s.network || DifferInOneOctet(p.network, s.network) {
        SamePrefixAtOffset(p, s);
        ShorterPrefixCovers(base, n, p);
        ShorterPrefixCovers(base, n, s);
      } else {
        PastCommonBits(a, b, n);
        assert InBlock(a, a, p.ones) && InBlock(b, b, s.ones);
      }
    }
  }

  lemma BaseInOwnBlock(c: Cidr, n: nat)
    requires Parsed(c) && n <= c.ones
    ensures InBlock(Value(c.network), Value(c.ip), n)
  {
    PrefixShorter(Value(c.ip), Value(c.network), n, c.ones);
  }

  lemma SamePrefixAtOffset(p: Cidr, s: Cidr)
    requires p.network == s.network || DifferInOneOctet(p.network, s.network)
    ensures ClusterOnes(p, s) <= 32
    ensures Prefix(Value(p.network), ClusterOnes(p, s)) == Prefix(Value(s.network), ClusterOnes(p, s))
  {
    LoopFindsCommonPrefix(p.network, s.network);
    if p.network != s.network {
      NoBitsInCommon(p.network);
      NoBitsInCommon(s.network);
      CommonBitsAgree(Value(p.network), Value(s.network), 32);
    }
  }

  /**
   * For disjoint networks that differ in one octet the block is the least that covers both,
   * and its base is the given address of the numerically lower range; the other one would
   * denote the same block.
   */
  lemma ClusterIsLeastCover(p: Cidr, s: Cidr, base: nat, n: nat)
    requires Parsed(p) && Parsed(s) && Disjoint(p, s) && DifferInOneOctet(p.network, s.network)
    requires ClusterOnes(p, s) < n <= 32
    ensures Covers(Value(ClusterBase(p, s)), ClusterOnes(p, s), p)
    ensures Covers(Value(ClusterBase(p, s)), ClusterOnes(p, s), s)
    ensures !(Covers(base, n, p) && Covers(base, n, s))
    ensures ClusterBase(p, s) == if Value(s.network) < Value(p.network) then s.ip else p.ip
    ensures InBlock(Value(p.ip), Value(s.ip), ClusterOnes(p, s))
  {
    var a, b := Value(p.network), Value(s.network);
    LoopFindsCommonPrefix(p.network, s.network);
    SamePrefixAtOffset(p, s);
    DisjointLimitsOffset(p, s);
    ClusterCovers(p, s);
    ServiceBelowIsLess(p.network, s.network);
    PastCommonBits(a, b, n);
    assert InBlock(a, a, p.ones) && InBlock(b, b, s.ones);
    BaseInOwnBlock(p, ClusterOnes(p, s));
    BaseInOwnBlock(s, ClusterOnes(p, s));
  }

  /** A network that agrees with another beyond the other's prefix lies inside it. */
  lemma NestedIsNotDisjoint(c: Cidr, d: Cidr, n: nat)
    requires d.ones <= 32 && c.ones <= n <= 32 && Prefix(Value(c.network), n) == Prefix(Value(d.network), n)
    ensures !Disjoint(c, d) && !Disjoint(d, c)
  {
    var b := Value(d.network);
    PrefixShorter(Value(c.network), b, c.ones, n);
    assert InBlock(b, Value(c.network), c.ones) && InBlock(b, b, d.ones);
  }

  lemma DisjointLimitsOffset(p: Cidr, s: Cidr)
    requires Parsed(p) && Parsed(s) && Disjoint(p, s) && DifferInOneOctet(p.network, s.network)
    ensures ClusterOnes(p, s) < p.ones && ClusterOnes(p, s) < s.ones
  {
    SamePrefixAtOffset(p, s);
    if p.ones <= ClusterOnes(p, s) {
      NestedIsNotDisjoint(p, s, ClusterOnes(p, s));
    } else if s.ones <= ClusterOnes(p, s) {
      NestedIsNotDisjoint(s, p, ClusterOnes(p, s));
    }
  }

  const WIDE := Cidr([10, 0, 0, 0], [10, 0, 0, 0], 16)
  const NARROW := Cidr([10, 1, 2, 0], [10, 1, 2, 0], 24)

  lemma WideAndNarrow()
    ensures Parsed(WIDE) && Parsed(NARROW) && Disjoint(WIDE, NARROW)
  {
    var p, s := WIDE.network, NARROW.network;
    assert Pow2(8) == 256 by { assert Pow2(4) == 16; }
    assert Pow2(16) == 65536 by { Pow2Adds(8, 8); }
    HeadIsQuotient(p, 2);
    HeadIsQuotient(s, 2);
    HeadIsQuotient(s, 3);
    assert Head(p, 2) == 2560 && Head(s, 2) == 2561;
    assert Value(p) == 2560 * 65536 && Value(s) == Head(s, 3) * 256;
    forall x: nat | InBlock(x, Value(s), 24) ensures !InBlock(x, Value(p), 16) {
      PrefixShorter(x, Value(s), 16, 24);
    }
  }

  /** For 10.0.0.0/16 and 10.1.2.0/24 the loop ends in the third octet, and the block covers neither. */
  lemma TwoOctetsDiffer()
    ensures ClusterOnes(WIDE, NARROW) == 22 && CommonBits(Value(WIDE.network), Value(NARROW.network), 32) == 15
    ensures !Covers(Value(ClusterBase(WIDE, NARROW)), 22, WIDE) && !Covers(Value(ClusterBase(WIDE, NARROW)), 22, NARROW)
  {
    var p, s := WIDE.network, NARROW.network;
    assert LastDiverging(p, s, 4) == Some(2);
    assert OctetCommon(0, 2, 7) == 6;
    assert OctetCommon(0, 1, 7) == 7;
    CommonBitsEndIn(p, s, 1);
    WideAndNarrow();
    LongerPrefixMisses(Value(p), 22, WIDE);
    PastCommonBits(Value(p), Value(s), 22);
    assert InBlock(Value(s), Value(s), 24);
  }

  const DEFAULT_PODS := Cidr([10, 233, 42, 1], [10, 233, 42, 0], 24)
  const DEFAULT_SERVICES := Cidr([10, 233, 43, 1], [10, 233, 43, 0], 24)

  /** The default ranges meet all conditions; their cluster block is 10.233.42.0/23. */
  lemma DefaultRanges()
    ensures Parsed(DEFAULT_PODS) && Parsed(DEFAULT_SERVICES) && Disjoint(DEFAULT_PODS, DEFAULT_SERVICES)
    ensures DifferInOneOctet(DEFAULT_PODS.network, DEFAULT_SERVICES.network)
    ensures ClusterOnes(DEFAULT_PODS, DEFAULT_SERVICES) == 23
    ensures ClusterBase(DEFAULT_PODS, DEFAULT_SERVICES) == DEFAULT_PODS.ip
  {
    var p, s := DEFAULT_PODS.network, DEFAULT_SERVICES.network;
    assert Pow2(8) == 256 by { assert Pow2(4) == 16; }
    assert p[2] != s[2] && forall k :: 0 <= k < 4 && k != 2 ==> p[k] == s[k];
    assert Head(p, 3) == (10 * 256 + 233) * 256 + 42 && Head(s, 3) == (10 * 256 + 233) * 256 + 43;
    assert Head(DEFAULT_PODS.ip, 3) == Head(p, 3) && Head(DEFAULT_SERVICES.ip, 3) == Head(s, 3);
    LastOctet(DEFAULT_PODS.ip);
    LastOctet(DEFAULT_SERVICES.ip);
    LastOctet(p);
    LastOctet(s);
    assert LastDiverging(p, s, 4) == Some(2);
    assert OctetCommon(42, 43, 7) == 7;
  }

  lemma LastOctet(a: Address)
    ensures Value(a) / 256 == Head(a, 3) && Value(a) % 256 == a[3]
  {
  }

  // ---- The address to bind to

  /** The address of four octets as a number. */
  lemma ValueIs(a: Octet, b: Octet, c: Octet, d: Octet)
    ensures var w: int, x: int, y: int, z: int := a, b, c, d;
            Value([a, b, c, d]) == w * 0x100_0000 + x * 0x1_0000 + y * 0x100 + z
  {
    var x: Address := [a, b, c, d];
    assert Head(x, 1) == a;
    assert Head(x, 2) == Head(x, 1) * 256 + b;
    assert Head(x, 3) == Head(x, 2) * 256 + c;
  }

  lemma PrivateByOctets(a: Address)
    ensures var high: int, low: int := a[0], a[1];
            && Prefix(Value(a), 8) == high
            && Prefix(Value(a), 16) == high * 256 + low
            && Prefix(Value(a), 12) == (high * 256 + low) / 16
  {
    assert Head(a, 1) == a[0];
    HeadIsQuotient(a, 1);
    HeadIsQuotient(a, 2);
    assert Pow2(4) == 16;
    Pow2Adds(4, 16);
    DivTwice(Value(a), Pow2(16), 16);
  }

  const TEN: Address := [10, 0, 0, 0]
  const ONE_SEVEN_TWO: Address := [172, 16, 0, 0]
  const ONE_NINE_TWO: Address := [192, 168, 0, 0]

  /** The private addresses are those in 10.0.0.0/8, 172.16.0.0/12 and 192.168.0.0/16. */
  lemma IsPrivateIff(a: Address)
    ensures IsPrivate(a) <==>
            InBlock(Value(a), Value(TEN), 8) || InBlock(Value(a), Value(ONE_SEVEN_TWO), 12)
            || InBlock(Value(a), Value(ONE_NINE_TWO), 16)
  {
    PrivateByOctets(a);
    PrivateByOctets(TEN);
    PrivateByOctets(ONE_SEVEN_TWO);
    PrivateByOctets(ONE_NINE_TWO);
  }

  predicate IsPrivate(a: Address) {
    a[0] == 10 || (a[0] == 172 && 16 <= a[1] < 32) || (a[0] == 192 && a[1] == 168)
  }

  /** The first private candidate, or else the first one; None stands for the fatal error without any. */
  method FindBindAddress(candidates: seq<Address>) returns (r: Option<Address>)
    ensures r.None? <==> candidates == []
    ensures r.Some? && IsPrivate(r.value) ==>
              exists i :: 0 <= i < |candidates| && candidates[i] == r.value
                          && forall k :: 0 <= k < i ==> !IsPrivate(candidates[k])
    ensures r.Some? && !IsPrivate(r.value) ==>
              r.value == candidates[0] && forall k :: 0 <= k < |candidates| ==> !IsPrivate(candidates[k])
  {
    if candidates == [] {
      return None;
    }
    for i := 0 to |candidates|
      invariant forall k :: 0 <= k < i ==> !IsPrivate(candidates[k])
    {
      if IsPrivate(candidates[i]) {
        return Some(candidates[i]);
      }
    }
    r := Some(candidates[0]);
  }
}
