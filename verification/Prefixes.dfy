/**
 Source prefixes: the words of an address, the leading bits the kernel's prefix table keeps,
 and the longest match.
 */
module Prefixes {
  import opened Residues
  import opened Allocator

  /** The words the kernel sees: an IPv4 address occupies the first word of the address union. */
  function Words(a: Addr): seq<nat> {
    match a
    case V4(w) => [w, 0, 0, 0]
    case V6(w0, w1, w2, w3) => [w0, w1, w2, w3]
  }

  function Pow2(n: nat): (r: nat)
    ensures r > 0
  {
    if n == 0 then 1 else 2 * Pow2(n - 1)
  }

  function Width(isIpv6: bool): nat {
    if isIpv6 then 128 else 32
  }

  /** The address as one number. */
  function Value(words: seq<nat>, isIpv6: bool): nat
    requires |words| == 4
  {
    if isIpv6 then ((words[0] * U32 + words[1]) * U32 + words[2]) * U32 + words[3] else words[0]
  }

  /** What follows the prefix of an address counts below this. */
  function Rest(prefixLen: nat, isIpv6: bool): (r: nat)
    ensures r > 0
  {
    if prefixLen <= Width(isIpv6) then Pow2(Width(isIpv6) - prefixLen) else 1
  }

  /** A key of the kernel's prefix table: bits after the prefix do not tell keys apart. */
  datatype LpmKey = LpmKey(isIpv6: bool, prefixLen: nat, bits: nat)

  /** The leading bits of a number whose rest counts below `rest`. */
  function Leading(value: nat, rest: nat): nat
    requires rest > 0
  {
    value / rest
  }

  function KeyOf(r: Net): LpmKey {
    LpmKey(r.addr.V6?, r.prefixLen, Leading(Value(Words(r.addr), r.addr.V6?), Rest(r.prefixLen, r.addr.V6?)))
  }

  /** The leading bits of the source are those of the prefix. */
  predicate Contains(q: LpmKey, src: seq<nat>, isIpv6: bool) {
    && |src| == 4 && q.isIpv6 == isIpv6 && q.prefixLen <= Width(isIpv6)
    && Leading(Value(src, isIpv6), Rest(q.prefixLen, isIpv6)) == q.bits
  }

  /** The prefix contains the source and no longer one does. */
  ghost predicate LongestMatch(keys: set<LpmKey>, q: LpmKey, src: seq<nat>, isIpv6: bool) {
    && q in keys && Contains(q, src, isIpv6)
    && forall x :: x in keys && Contains(x, src, isIpv6) ==> x.prefixLen <= q.prefixLen
  }

  lemma LongestMatchUnique(keys: set<LpmKey>, q: LpmKey, x: LpmKey, src: seq<nat>, isIpv6: bool)
    requires LongestMatch(keys, q, src, isIpv6) && LongestMatch(keys, x, src, isIpv6)
    ensures q == x
  {
  }

  /** A prefix of 24 bits contains exactly the addresses that differ in the last byte at most. */
  lemma TwentyFourBits(w: nat, x: nat)
    ensures Contains(KeyOf(Net(V4(w), 24)), [x, 0, 0, 0], false) <==> w / 256 == x / 256
  {
    EightBits();
    hide Pow2;
  }

  lemma EightBits()
    ensures Pow2(8) == 256
  {
    assert Pow2(4) == 16;
    assert Pow2(8) == 2 * Pow2(7) == 4 * Pow2(6) == 8 * Pow2(5) == 16 * Pow2(4);
  }

  /** One bit less joins two neighbouring prefixes. */
  lemma OneBitLess(r: Net)
    requires 0 < r.prefixLen <= Width(r.addr.V6?)
    ensures KeyOf(r.(prefixLen := r.prefixLen - 1)).bits == KeyOf(r).bits / 2
    ensures r.prefixLen == Width(r.addr.V6?) ==> KeyOf(r).bits == Value(Words(r.addr), r.addr.V6?)
  {
    var v, n := Value(Words(r.addr), r.addr.V6?), Rest(r.prefixLen, r.addr.V6?);
    assert Rest(r.prefixLen - 1, r.addr.V6?) == 2 * n;
    HalvedQuotient(v, n);
  }

  lemma HalvedQuotient(v: nat, n: nat)
    requires n > 0
    ensures v / (2 * n) == v / n / 2
  {
    var q, r := v / n, v % n;
    var h, b := q / 2, q % 2;
    assert v == n * q + r && q == 2 * h + b;
    assert n * q == 2 * n * h + n * b;
    assert n * b + r < 2 * n by { if b == 1 { assert n * b == n; } else { assert n * b == 0; } }
    DivModUnique(v, 2 * n, h, n * b + r);
  }

  /** The bits after the prefix are zero, and the words are words. */
  predicate Masked(r: Net) {
    && Value(Words(r.addr), r.addr.V6?) % Rest(r.prefixLen, r.addr.V6?) == 0
    && match r.addr case V4(w) => w < U32 case V6(w0, w1, w2, w3) => w0 < U32 && w1 < U32 && w2 < U32 && w3 < U32
  }

  lemma DigitUnique(x: nat, a: nat, y: nat, b: nat)
    requires x * U32 + a == y * U32 + b && a < U32 && b < U32
    ensures x == y && a == b
  {
  }

  lemma ValueInjective(a: Addr, b: Addr)
    requires a.V6? == b.V6? && Value(Words(a), a.V6?) == Value(Words(b), b.V6?)
    requires a.V6? ==> a.w1 < U32 && a.w2 < U32 && a.w3 < U32 && b.w1 < U32 && b.w2 < U32 && b.w3 < U32
    ensures a == b
  {
    if a.V6? {
      DigitUnique((a.w0 * U32 + a.w1) * U32 + a.w2, a.w3, (b.w0 * U32 + b.w1) * U32 + b.w2, b.w3);
      DigitUnique(a.w0 * U32 + a.w1, a.w2, b.w0 * U32 + b.w1, b.w2);
      DigitUnique(a.w0, a.w1, b.w0, b.w1);
    }
  }

  lemma SameMultiple(x: nat, y: nat, m: nat)
    requires m > 0 && x % m == 0 && y % m == 0 && x / m == y / m
    ensures x == y
  {
    SameResidue(x, y, m);
  }

  /** The kernel tells masked prefixes apart. */
  lemma MaskedKeysDiffer(r: Net, q: Net)
    requires Masked(r) && Masked(q) && KeyOf(r) == KeyOf(q)
    ensures r == q
  {
    hide Value, Rest;
    var six := r.addr.V6?;
    SameMultiple(Value(Words(r.addr), six), Value(Words(q.addr), six), Rest(r.prefixLen, six));
    ValueInjective(r.addr, q.addr);
  }
}
