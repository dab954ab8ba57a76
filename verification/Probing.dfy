/**
 The probe sequence of one endpoint (CHHelpers.cpp): slot `n` is
 `(offset + n * skip) % ring_size`, computed in 32-bit unsigned arithmetic.
 */
module Probing {
  import opened Residues

  datatype Probe = Probe(offset: nat, skip: nat)

  predicate InRange(p: Probe, ring: nat) {
    p.offset < ring && 0 < p.skip < ring
  }

  /** The slot as the program computes it: the product and the sum wrap. */
  function Slot(p: Probe, ring: nat, n: nat): (r: nat)
    requires ring > 0
    ensures r < ring
  {
    ((p.offset + (n * p.skip) % U32) % U32) % ring
  }

  /** The slot of the published algorithm: unbounded integers. */
  function ExactSlot(p: Probe, ring: nat, n: nat): (r: nat)
    requires ring > 0
    ensures r < ring
  {
    Walk(ring, p.offset, p.skip, n)
  }

  predicate Wraps(p: Probe, n: nat) {
    p.offset + n * p.skip >= U32
  }

  lemma SlotWrapsOnce(p: Probe, ring: nat, n: nat)
    requires ring > 0
    ensures Slot(p, ring, n) == Walk(U32, p.offset, p.skip, n) % ring
  {
    var x := n * p.skip;
    assert p.offset + x == (p.offset + x % U32) + U32 * (x / U32);
    ModAddMultiple(p.offset + x % U32, U32, x / U32);
  }

  /** Without wrap-around the machine slot is the exact slot. */
  lemma SlotExact(p: Probe, ring: nat, n: nat)
    requires ring > 0 && !Wraps(p, n)
    ensures Slot(p, ring, n) == ExactSlot(p, ring, n)
  {
    SlotWrapsOnce(p, ring, n);
    DivModUnique(p.offset + n * p.skip, U32, 0, p.offset + n * p.skip);
  }

  /**
   No probe of the first `ring` ones wraps for any offset and skip in range,
   exactly when `ring * (ring - 1)` fits in 32 bits.
   */
  lemma NoWrapIffProductFits(ring: nat)
    requires ring >= 2
    ensures (forall p, n: nat :: InRange(p, ring) && n < ring ==> !Wraps(p, n))
       <==> ring * (ring - 1) < U32
  {
    if ring * (ring - 1) < U32 {
      forall p, n: nat | InRange(p, ring) && n < ring ensures !Wraps(p, n) {
        ProductMonotone(n, ring - 1, p.skip, ring - 1);
        assert ring * (ring - 1) == (ring - 1) * (ring - 1) + (ring - 1);
      }
    } else {
      var p := Probe(ring - 1, ring - 1);
      assert InRange(p, ring);
      assert (ring - 1) + (ring - 1) * (ring - 1) == ring * (ring - 1);
      assert Wraps(p, ring - 1);
    }
  }

  lemma ProductMonotone(a: nat, b: nat, c: nat, d: nat)
    requires a <= b && c <= d
    ensures a * c <= b * d
  {
  }

  /** The default ring size, and the probes of it that wrap. */
  const DEFAULT_RING: nat := 65537

  lemma DefaultRingWraps(p: Probe, n: nat)
    requires InRange(p, DEFAULT_RING) && n < DEFAULT_RING
    ensures Wraps(p, n) <==>
            || (n == 65536 && p.skip == 65536)
            || (p.offset == 65536 && n == 65536 && p.skip == 65535)
            || (p.offset == 65536 && n == 65535 && p.skip == 65536)
  {
  }

  // ---------------------------------------------------------------------
  // Which slots are reached
  // ---------------------------------------------------------------------

  /** Some probe below `limit` lands on slot `x`. */
  ghost predicate Reaches(p: Probe, ring: nat, limit: nat, x: nat)
    requires ring > 0
  {
    exists n: nat :: n < limit && Slot(p, ring, n) == x
  }

  /** For a prime ring whose products fit, the first `ring` probes are a permutation of the slots. */
  lemma ProbeIsPermutation(p: Probe, ring: nat)
    requires IsPrime(ring) && InRange(p, ring) && ring * (ring - 1) < U32
    ensures forall i, j :: 0 <= i < j < ring ==> Slot(p, ring, i) != Slot(p, ring, j)
    ensures forall x: nat :: x < ring ==> Reaches(p, ring, ring, x)
  {
    PrimeGenerates(ring, p.skip);
    WalkIsPermutation(ring, p.offset, p.skip);
    NoWrapIffProductFits(ring);
    forall n: nat | n < ring ensures Slot(p, ring, n) == Walk(ring, p.offset, p.skip, n) {
      SlotExact(p, ring, n);
    }
    forall x: nat | x < ring ensures Reaches(p, ring, ring, x) {
      assert Hits(ring, p.offset, p.skip, x);
      var n: nat :| n < ring && Walk(ring, p.offset, p.skip, n) == x;
      assert Slot(p, ring, n) == x;
    }
  }

  /** The sequence eventually lands on every slot. */
  ghost predicate Covers(p: Probe, ring: nat)
    requires ring > 0
  {
    forall x: nat :: x < ring ==> Reaches(p, ring, U32, x)
  }

  /**
   The check a caller can make: the ring size times the low bit of the skip fits in 32 bits,
   and ring size and skip are not both even.
   */
  predicate SafeSkip(p: Probe, ring: nat) {
    p.skip > 0 && ring * LowBit(p.skip) <= U32 && (ring % 2 == 1 || p.skip % 2 == 1)
  }

  lemma U32IsPowerOfTwo()
    ensures PowerOfTwo(U32)
  {
    SixteenBits();
    assert PowerOfTwo(0x100_0000);
  }

  lemma SixteenBits()
    ensures PowerOfTwo(65536)
  {
  }

  /** A value congruent to the offset modulo the low bit of the skip is some probe's 32-bit sum. */
  lemma ReachValue(p: Probe, y: nat) returns (n: nat)
    requires p.skip > 0 && y < U32 && LowBit(p.skip) <= U32
    requires y % LowBit(p.skip) == p.offset % LowBit(p.skip)
    ensures n < U32 && Walk(U32, p.offset, p.skip, n) == y
  {
    var low, odd, q := SplitSkip(p.skip);
    OddGenerates(q, odd);
    n := SolveProbe(p.offset, low, odd, p.skip, q, U32, y);
    MulAtLeast(q, low);
  }

  /** The skip is its low bit times an odd number, and the low bit divides 2^32. */
  lemma SplitSkip(s: nat) returns (low: nat, odd: nat, q: nat)
    requires s > 0 && LowBit(s) <= U32
    ensures low == LowBit(s) && s == low * odd && odd % 2 == 1
    ensures U32 == low * q && q > 0 && PowerOfTwo(q)
  {
    low := LowBit(s);
    odd := LowBitSplits(s);
    U32IsPowerOfTwo();
    q := PowerQuotient(low, U32);
  }

  lemma SolveProbe(o: nat, low: nat, odd: nat, s: nat, q: nat, u: nat, y: nat) returns (n: nat)
    requires low > 0 && q > 0 && u == low * q && s == low * odd && Generates(q, odd)
    requires y < u && y % low == o % low
    ensures n < q && Walk(u, o, s, n) == y
  {
    var base, goal := o / low, y / low;
    QuotientBelow(y, low, q);
    WalkIsPermutation(q, base, odd);
    assert Hits(q, base, odd, goal);
    n :| n < q && Walk(q, base, odd, n) == goal;
    SumDecomposition(o, n, low, odd, s, q, u);
    DivModUnique(o + n * s, u, (base + n * odd) / q, y);
  }

  lemma QuotientBelow(y: nat, m: nat, q: nat)
    requires m > 0 && y < m * q
    ensures y / m < q
  {
  }

  /** A probe's sum, split by the low bit `low` of its skip `low * odd` and by `q` multiples of it. */
  lemma SumDecomposition(o: nat, n: nat, low: nat, odd: nat, s: nat, q: nat, u: nat)
    requires low > 0 && q > 0 && s == low * odd && u == low * q
    ensures var total := o / low + n * odd;
            o + n * s == o % low + low * (total % q) + u * (total / q)
  {
  }

  lemma SafeSlotReached(p: Probe, ring: nat, j: nat)
    requires p.skip > 0 && j < ring && ring * LowBit(p.skip) <= U32
    ensures Reaches(p, ring, U32, Walk(ring, p.offset % LowBit(p.skip), LowBit(p.skip), j))
  {
    var low := LowBit(p.skip);
    var start := p.offset % low;
    var y := start + j * low;
    assert y < U32 by { ProductMonotone(j, ring - 1, low, low); Distribute(low, ring, 1); }
    assert y % low == start by { DivModUnique(y, low, j, start); }
    MulAtLeast(low, ring);
    var n := ReachValue(p, y);
    SlotWrapsOnce(p, ring, n);
    assert Slot(p, ring, n) == y % ring;
  }

  /** A safe skip reaches every slot, wrap-around or not and whether or not the ring size is prime. */
  lemma SafeSkipCovers(p: Probe, ring: nat)
    requires InRange(p, ring) && SafeSkip(p, ring)
    ensures Covers(p, ring)
  {
    var low := LowBit(p.skip);
    var start := p.offset % low;
    PowerGenerates(ring, low);
    WalkIsPermutation(ring, start, low);
    forall x: nat | x < ring ensures Reaches(p, ring, U32, x) {
      assert Hits(ring, start, low, x);
      var j: nat :| j < ring && Walk(ring, start, low, j) == x;
      SafeSlotReached(p, ring, j);
    }
  }

  /** Every probe's 32-bit sum keeps the offset's residue modulo the low bit of the skip. */
  lemma ProbeResidue(p: Probe, n: nat, low: nat, odd: nat, q: nat) returns (j: nat)
    requires low > 0 && q > 0 && p.skip == low * odd && U32 == low * q
    ensures j < q && Walk(U32, p.offset, p.skip, n) == p.offset % low + low * j
  {
    var base := p.offset / low;
    var total := base + n * odd;
    j := total % q;
    var z := total / q;
    SumDecomposition(p.offset, n, low, odd, p.skip, q, U32);
    var y := p.offset % low + low * j;
    assert low * j <= low * q - low by { ProductMonotone(low, low, j, q - 1); Distribute(low, q, 1); }
    DivModUnique(p.offset + n * p.skip, U32, z, y);
  }

  /** With ring size and skip both even, every probe keeps the parity of the offset. */
  lemma EvenSkipKeepsParity(p: Probe, ring: nat, n: nat)
    requires ring > 0 && ring % 2 == 0 && p.skip % 2 == 0
    ensures Slot(p, ring, n) % 2 == p.offset % 2
  {
    EvenProduct(n, p.skip);
    SumKeepsParity(p.offset, n * p.skip, ring);
  }

  lemma EvenProduct(n: nat, s: nat)
    requires s % 2 == 0
    ensures n * s % 2 == 0
  {
    HalveProduct(s, n);
  }

  lemma WrappedSumParity(o: nat, x: nat)
    requires x % 2 == 0
    ensures (o + x % U32) % U32 % 2 == o % 2
  {
    EvenModulus(x, U32);
    EvenModulus(o + x % U32, U32);
  }

  lemma SumKeepsParity(o: nat, x: nat, ring: nat)
    requires x % 2 == 0 && ring > 0 && ring % 2 == 0
    ensures (o + x % U32) % U32 % ring % 2 == o % 2
  {
    WrappedSumParity(o, x);
    EvenModulus((o + x % U32) % U32, ring);
  }

  /** An unsafe skip lands on fewer slots than the ring has. */
  lemma UnsafeSkipMisses(p: Probe, ring: nat) returns (x: nat)
    requires InRange(p, ring) && ring < U32 && !SafeSkip(p, ring)
    ensures x < ring && forall n: nat :: Slot(p, ring, n) != x
  {
    if ring % 2 == 0 && p.skip % 2 == 0 {
      x := 1 - p.offset % 2;
      forall n: nat ensures Slot(p, ring, n) != x {
        EvenSkipKeepsParity(p, ring, n);
      }
    } else {
      x := LargeSkipMisses(p, ring);
    }
  }

  lemma LargeSkipMisses(p: Probe, ring: nat) returns (x: nat)
    requires InRange(p, ring) && ring < U32 && ring * LowBit(p.skip) > U32
    ensures x < ring && forall n: nat :: Slot(p, ring, n) != x
  {
    var low, odd, q := SplitSkip(p.skip);
    assert q < ring by {
      if q >= ring { ProductMonotone(low, low, ring, q); }
    }
    var image := seq(q, j requires 0 <= j < q => (p.offset % low + low * j) % ring);
    ElementsCard(image);
    if Below(ring) <= Elements(image) {
      SubsetCard(Below(ring), Elements(image));
    }
    x :| x in Below(ring) && x !in Elements(image);
    forall n: nat ensures Slot(p, ring, n) != x {
      var j := ProbeResidue(p, n, low, odd, q);
      SlotWrapsOnce(p, ring, n);
      assert image[j] == Slot(p, ring, n);
    }
  }

  /**
   The exact condition for the inner search to be able to find any free slot:
   the probe sequence lands on every slot if and only if the skip is safe.
   */
  lemma CoversIffSafeSkip(p: Probe, ring: nat)
    requires ring < U32 && InRange(p, ring)
    ensures Covers(p, ring) <==> SafeSkip(p, ring)
  {
    if SafeSkip(p, ring) {
      SafeSkipCovers(p, ring);
    } else {
      var x := UnsafeSkipMisses(p, ring);
      assert !Reaches(p, ring, U32, x);
    }
  }

  /** When the ring size is prime and the products fit, every skip is safe. */
  lemma FittingRingIsSafe(p: Probe, ring: nat)
    requires IsPrime(ring) && InRange(p, ring) && ring * (ring - 1) < U32
    ensures SafeSkip(p, ring)
  {
    assert ring > 2 ==> !Divides(2, ring);
    ProductMonotone(ring, ring, LowBit(p.skip), ring - 1);
  }

  /** At the default ring size exactly one skip of the 65536 possible ones is unsafe. */
  lemma DefaultRingSafety(p: Probe)
    requires InRange(p, DEFAULT_RING)
    ensures SafeSkip(p, DEFAULT_RING) <==> p.skip != 65536
  {
    assert LowBit(65536) == 65536 by { SixteenBits(); LowBitOfPower(65536); }
    if LowBit(p.skip) > 32768 {
      PowersAbove(LowBit(p.skip));
    }
  }

  lemma {:induction false} LowBitOfPower(n: nat)
    requires PowerOfTwo(n)
    ensures LowBit(n) == n
  {
    if n > 1 {
      LowBitOfPower(n / 2);
    }
  }

  lemma PowersAbove(n: nat)
    requires PowerOfTwo(n) && 32768 < n <= 65536
    ensures n == 65536
  {
    SixteenBits();
    var q := PowerQuotient(n, 65536);
    if q >= 2 {
      MulAtLeast(n, q - 1);
      Distribute(n, q, 1);
    }
  }

  // ---------------------------------------------------------------------
  // A probe sequence as a list of slots
  // ---------------------------------------------------------------------

  /** All slots a 32-bit probe counter can produce, in order; after them the counter starts over. */
  type Path = seq<nat>

  ghost predicate ValidPath(path: Path, size: nat) {
    |path| == U32 && forall n :: 0 <= n < |path| ==> path[n] < size
  }

  ghost function PathOf(p: Probe, size: nat): (path: Path)
    requires size > 0
    ensures ValidPath(path, size)
  {
    seq(U32, n requires 0 <= n < U32 => Slot(p, size, n))
  }

  /** Evaluates one probe. */
  method ProbeSlot(offset: nat, skip: nat, size: nat, n: nat) returns (cur: nat)
    requires size > 0 && n < U32
    ensures cur == PathOf(Probe(offset, skip), size)[n]
  {
    cur := ((offset + (n * skip) % U32) % U32) % size;
  }

  ghost predicate CoveringPath(path: Path, size: nat) {
    ValidPath(path, size) && forall x: nat :: x < size ==> x in path
  }

  lemma PathCovers(p: Probe, size: nat)
    requires size > 0
    ensures CoveringPath(PathOf(p, size), size) <==> Covers(p, size)
  {
    var path := PathOf(p, size);
    forall x: nat | x < size ensures x in path <==> Reaches(p, size, U32, x) {
      if Reaches(p, size, U32, x) {
        var n: nat :| n < U32 && Slot(p, size, n) == x;
        assert path[n] == x;
      }
      if x in path {
        var n: nat :| n < |path| && path[n] == x;
        assert Slot(p, size, n) == x;
      }
    }
  }

  // ---------------------------------------------------------------------
  // The default ring size is prime, as the algorithm demands
  // ---------------------------------------------------------------------

  lemma NoSmallFactor(a: nat, b: nat)
    requires 2 <= a < 257
    ensures a * b != DEFAULT_RING
  {
  }

  lemma DefaultRingIsPrime()
    ensures IsPrime(DEFAULT_RING)
  {
    forall d | 2 <= d < DEFAULT_RING ensures !Divides(d, DEFAULT_RING) {
      var q := DEFAULT_RING / d;
      if Divides(d, DEFAULT_RING) {
        assert d * q == DEFAULT_RING;
        if d < 257 {
          NoSmallFactor(d, q);
        } else {
          if q >= 257 { ProductMonotone(257, d, 257, q); }
          assert q != 1 && q != 0;
          NoSmallFactor(q, d);
        }
      }
    }
  }
}
