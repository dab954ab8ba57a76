/**
 Internet checksums (csum_helpers.h), on a little-endian machine: the sum of 16-bit words,
 folded to 16 bits with end-around carry and complemented.
 */
module Checksum {
  import opened Bytes
  import opened Residues
  import opened Frames

  const ONES: nat := 65535
  const IPV4_HDR_LEN: nat := 20

  /** Sum of the 16-bit words, an odd last byte standing alone. */
  function WordSum(b: seq<byte>): nat {
    if |b| == 0 then 0 else if |b| == 1 then b[0] else Le16(b, 0) + WordSum(b[2..])
  }

  /** The 16-bit number congruent to `c` modulo 65535 that is zero only for zero. */
  function Folded(c: nat): (r: u16)
    ensures r % ONES == c % ONES && (r == 0 <==> c == 0)
  {
    if c == 0 then 0 else (c - 1) % ONES + 1
  }

  lemma FoldedUnique(c: nat, r: u16)
    requires r % ONES == c % ONES && (r == 0 <==> c == 0)
    ensures r == Folded(c)
  {
  }

  /** The data carry a correct checksum: their one's complement sum is all ones. */
  ghost predicate Verifies(sum: nat) {
    sum > 0 && sum % ONES == 0
  }

  lemma VerifiesIffFolded(sum: nat)
    ensures Verifies(sum) <==> Folded(sum) == ONES
  {
  }

  // ---------------------------------------------------------------------
  // Network order
  // ---------------------------------------------------------------------

  /** The sum as the standards define it, over words in network order. */
  function NetworkSum(b: seq<byte>): nat {
    if |b| == 0 then 0 else if |b| == 1 then 256 * (b[0] as int) else Be16(b, 0) + NetworkSum(b[2..])
  }

  /** Each byte counts 256 times as much in the other order, up to multiples of 65535. */
  lemma {:induction false} SumsOfBothOrders(b: seq<byte>) returns (j: nat, k: nat)
    ensures 256 * WordSum(b) == NetworkSum(b) + ONES * j
    ensures 256 * NetworkSum(b) == WordSum(b) + ONES * k
  {
    if |b| == 0 {
      return 0, 0;
    } else if |b| == 1 {
      return 0, b[0];
    }
    var j', k' := SumsOfBothOrders(b[2..]);
    return j' + b[1], k' + b[0];
  }

  lemma ScaledMultiple(s: nat, n: nat, j: nat)
    requires 256 * s == n + ONES * j
    ensures s % ONES == 0 ==> n % ONES == 0
  {
    if s % ONES == 0 {
      var q := s / ONES;
      assert s == ONES * q;
      assert n == ONES * (256 * q - j);
      DivModUnique(n, ONES, 256 * q - j, 0);
    }
  }

  /** A checksum filled in on a little-endian machine is the network-order checksum. */
  lemma ByteOrderIndependent(b: seq<byte>)
    ensures Verifies(WordSum(b)) <==> Verifies(NetworkSum(b))
  {
    var j, k := SumsOfBothOrders(b);
    hide WordSum, NetworkSum;
    var s, n := WordSum(b), NetworkSum(b);
    ScaledMultiple(s, n, j);
    ScaledMultiple(n, s, k);
    assert s == 0 <==> n == 0 by { ZeroBytes(b); }
  }

  lemma ZeroBytes(b: seq<byte>)
    ensures WordSum(b) == 0 <==> NetworkSum(b) == 0
  {
  }

  // ---------------------------------------------------------------------
  // csum_fold_helper
  // ---------------------------------------------------------------------

  /** What is left at most after a number of folds. */
  function Bound(i: nat): nat {
    if i == 0 then 0xFFFF_FFFF_FFFF_FFFF
    else if i == 1 then 0x1_0000_0000_FFFE
    else if i == 2 then 0x1_0000_FFFE
    else if i == 3 then 0x1_FFFE
    else ONES
  }

  lemma FoldOnce(c: nat, i: nat)
    requires i < 4 && c <= Bound(i)
    ensures c % U16 + c / U16 <= Bound(i + 1)
    ensures (c % U16 + c / U16) % ONES == c % ONES
    ensures c % U16 + c / U16 == 0 <==> c == 0
  {
  }

  /** Four folds are enough for every 64-bit sum. */
  method CsumFoldHelper(sum: nat) returns (r: u16)
    requires sum < 0x1_0000_0000_0000_0000
    ensures r == ONES - Folded(sum)
  {
    var csum: nat := sum;
    for i := 0 to 4
      invariant csum <= Bound(i) && csum % ONES == sum % ONES && (csum == 0 <==> sum == 0)
    {
      FoldOnce(csum, i);
      if csum / U16 != 0 {
        csum := csum % U16 + csum / U16;
      }
    }
    FoldedUnique(sum, csum);
    r := ONES - csum;
  }

  // ---------------------------------------------------------------------
  // Sums over bytes
  // ---------------------------------------------------------------------

  lemma {:induction false} WordSumConcat(a: seq<byte>, b: seq<byte>)
    requires |a| % 2 == 0
    ensures WordSum(a + b) == WordSum(a) + WordSum(b)
  {
    if |a| == 0 {
      assert a + b == b;
    } else {
      assert (a + b)[2..] == a[2..] + b;
      WordSumConcat(a[2..], b);
    }
  }

  lemma WordSumWord(b: seq<byte>)
    requires |b| == 2
    ensures WordSum(b) == Le16(b, 0)
  {
  }

  /** Overwriting whole words changes the sum by their difference. */
  lemma WordSumPatch(s: seq<byte>, at: nat, b: seq<byte>)
    requires at % 2 == 0 && |b| % 2 == 0 && at + |b| <= |s|
    ensures WordSum(Patch(s, at, b)) == WordSum(s) - WordSum(s[at..at + |b|]) + WordSum(b)
  {
    hide WordSum;
    var mid, rest := s[at..at + |b|], s[at + |b|..];
    assert s == s[..at] + (mid + rest) && Patch(s, at, b) == s[..at] + (b + rest);
    WordSumConcat(s[..at], mid + rest);
    WordSumConcat(mid, rest);
    WordSumConcat(s[..at], b + rest);
    WordSumConcat(b, rest);
  }

  // ---------------------------------------------------------------------
  // ipv4_csum_inline
  // ---------------------------------------------------------------------

  function CheckOf(header: seq<byte>): u16 {
    ONES - Folded(WordSum(header))
  }

  method Ipv4CsumInline(f: Frame, o: nat) returns (csum: u16)
    requires f.Valid() && o + IPV4_HDR_LEN <= f.end - f.head
    ensures csum == CheckOf(f.Bytes()[o..o + IPV4_HDR_LEN])
  {
    ghost var b := f.Bytes()[o..o + IPV4_HDR_LEN];
    var sum := 0;
    hide WordSum;
    WordSumEmpty();
    for i := 0 to 10
      invariant sum == WordSum(b[..2 * i]) && sum <= ONES * i
    {
      var word := f.Get(o + 2 * i, 2);
      SubSlice(f.Bytes(), o, b, 2 * i);
      WordSumNext(b, 2 * i, word);
      sum := sum + Le16(word, 0);
    }
    assert b[..20] == b;
    csum := CsumFoldHelper(sum);
  }

  lemma SubSlice(s: seq<byte>, o: nat, b: seq<byte>, k: nat)
    requires o + |b| <= |s| && b == s[o..o + |b|] && k + 2 <= |b|
    ensures s[o + k..o + k + 2] == b[k..k + 2]
  {
    assert b[k] == s[o + k] && b[k + 1] == s[o + k + 1];
  }

  lemma WordSumNext(b: seq<byte>, k: nat, word: seq<byte>)
    requires k % 2 == 0 && k + 2 <= |b| && word == b[k..k + 2]
    ensures WordSum(b[..k + 2]) == WordSum(b[..k]) + Le16(word, 0)
  {
    assert b[..k] + word == b[..k + 2];
    WordSumConcat(b[..k], word);
    WordSumWord(word);
  }

  lemma WordSumEmpty()
    ensures WordSum([]) == 0
  {
  }

  /** Filling in the checksum of a header whose field was zero makes it verify. */
  lemma CheckMakesValid(zeroed: seq<byte>, at: nat)
    requires at % 2 == 0 && at + 2 <= |zeroed| && zeroed[at..at + 2] == [0, 0]
    ensures Verifies(WordSum(Patch(zeroed, at, PutLe16(CheckOf(zeroed)))))
  {
    var s := WordSum(zeroed);
    var check := PutLe16(CheckOf(zeroed));
    WordSumPatch(zeroed, at, check);
    WordSumWord(check);
    WordSumWord([0, 0]);
    hide WordSum, PutLe16, Le16;
    assert WordSum([0, 0]) == 0 by { LeZero(); }
    DifferenceDivides(s, Folded(s), ONES);
  }

  lemma LeZero()
    ensures Le16([0, 0], 0) == 0
  {
  }

  lemma DifferenceDivides(a: nat, b: nat, m: nat)
    requires m > 0 && a % m == b % m
    ensures (a - b + m) % m == 0
  {
    var k := a / m - b / m + 1;
    assert a == m * (a / m) + a % m && b == m * (b / m) + b % m;
    assert m * k == m * (a / m) - m * (b / m) + m;
    ModAddMultiple(0, m, k);
  }

}
