/**
 Residue arithmetic behind the consistent-hash ring: when does the walk
 `offset, offset + step, offset + 2 * step, ...` visit every residue?
 */
module Residues {
  /** 2^32: unsigned 32-bit arithmetic works modulo this number. */
  const U32: nat := 0x1_0000_0000

  predicate Divides(d: nat, n: nat)
    requires d > 0
  {
    n % d == 0
  }

  ghost predicate IsPrime(n: nat) {
    n >= 2 && forall d :: 2 <= d < n ==> !Divides(d, n)
  }

  lemma Distribute(m: int, a: int, b: int)
    ensures m * (a - b) == m * a - m * b
    ensures m * (a + b) == m * a + m * b
  {
  }

  lemma MulAtLeast(m: nat, k: int)
    ensures k >= 1 ==> m * k >= m
    ensures k <= -1 ==> m * k + m <= 0
  {
  }

  /** Quotient and remainder are unique. */
  lemma DivModUnique(x: int, m: nat, q: int, r: nat)
    requires m > 0 && r < m && x == m * q + r
    ensures x / m == q && x % m == r
  {
    var d, r' := q - x / m, x % m;
    assert m * d == r' - r by { Distribute(m, q, x / m); }
    MulAtLeast(m, d);
  }

  lemma ModAddMultiple(x: int, m: nat, k: int)
    requires m > 0
    ensures (x + m * k) % m == x % m
  {
    assert x + m * k == m * (x / m + k) + x % m;
    DivModUnique(x + m * k, m, x / m + k, x % m);
  }

  /** Equal residues differ by a multiple of the modulus. */
  lemma SameResidue(x: int, y: int, m: nat)
    requires m > 0 && x % m == y % m
    ensures x - y == m * (x / m - y / m)
  {
  }

  // ---------------------------------------------------------------------
  // Steps that generate all residues
  // ---------------------------------------------------------------------

  /** `d` steps of size `s` come back to the start modulo `m`. */
  predicate Returns(m: nat, s: nat, d: nat)
    requires m > 0
  {
    (d * s) % m == 0
  }

  /** No fewer than `m` steps of size `s` come back to the start. */
  ghost predicate Generates(m: nat, s: nat)
    requires m > 0
  {
    forall d :: 0 < d < m ==> !Returns(m, s, d)
  }

  lemma ReturnsRemainder(m: nat, s: nat, d: nat)
    requires m > 0 && d > 0 && Returns(m, s, d)
    ensures Returns(m, s, m % d)
  {
    var q, z := m / d, d * s / m;
    assert d * s == m * z;
    calc {
      (m % d) * s;
      (m - d * q) * s;
      m * s - q * (d * s);
      m * s - q * (m * z);
      m * (s - q * z);
    }
    DivModUnique((m % d) * s, m, s - q * z, 0);
  }

  lemma {:induction false} PrimeNeverReturnsEarly(m: nat, s: nat, d: nat)
    requires IsPrime(m) && 0 < s < m && 0 < d < m
    ensures !Returns(m, s, d)
    decreases d
  {
    if d == 1 {
      assert d * s == s;
    } else {
      assert !Divides(d, m);
      PrimeNeverReturnsEarly(m, s, m % d);
      if Returns(m, s, d) {
        ReturnsRemainder(m, s, d);
      }
    }
  }

  /** Below a prime modulus every nonzero step generates. */
  lemma PrimeGenerates(m: nat, s: nat)
    requires IsPrime(m) && 0 < s < m
    ensures Generates(m, s)
  {
    forall d | 0 < d < m ensures !Returns(m, s, d) {
      PrimeNeverReturnsEarly(m, s, d);
    }
  }

  // ---------------------------------------------------------------------
  // Pigeonhole
  // ---------------------------------------------------------------------

  function Below(n: nat): (s: set<nat>)
    ensures forall k: nat :: k in s <==> k < n
    ensures |s| == n
  {
    if n == 0 then {} else Below(n - 1) + {n - 1}
  }

  function Elements<T(!new)>(s: seq<T>): (r: set<T>)
    ensures forall x :: x in r <==> x in s
  {
    set x | x in s
  }

  ghost predicate Distinct<T(!new)>(s: seq<T>) {
    forall i, j :: 0 <= i < j < |s| ==> s[i] != s[j]
  }

  /** A sequence has at most as many elements as positions, exactly as many when they differ. */
  lemma {:induction false} ElementsCard<T(!new)>(s: seq<T>)
    ensures |Elements(s)| <= |s|
    ensures Distinct(s) ==> |Elements(s)| == |s|
  {
    if s != [] {
      var t := s[..|s| - 1];
      assert s == t + [s[|s| - 1]];
      ElementsCard(t);
      assert Elements(s) == Elements(t) + {s[|s| - 1]};
    }
  }

  lemma SubsetCard<T>(a: set<T>, b: set<T>)
    requires a <= b
    ensures |a| <= |b|
    ensures |a| == |b| ==> a == b
  {
    assert b == a + (b - a);
    assert |b| == |a| + |b - a|;
  }

  /** `m` distinct residues below `m` are all of them. */
  lemma Pigeonhole(s: seq<nat>, m: nat)
    requires |s| == m && Distinct(s) && forall i :: 0 <= i < m ==> s[i] < m
    ensures forall x: nat :: x < m ==> x in s
  {
    ElementsCard(s);
    SubsetCard(Elements(s), Below(m));
    forall x: nat | x < m ensures x in s {
      assert x in Elements(s);
    }
  }

  function Walk(m: nat, o: nat, s: nat, n: nat): (r: nat)
    requires m > 0
    ensures r < m
  {
    (o + n * s) % m
  }

  /** One of the first `m` steps of the walk lands on `x`. */
  ghost predicate Hits(m: nat, o: nat, s: nat, x: nat)
    requires m > 0
  {
    exists n: nat :: n < m && Walk(m, o, s, n) == x
  }

  lemma WalkInjective(m: nat, o: nat, s: nat, i: nat, j: nat)
    requires m > 0 && Generates(m, s) && i < j < m
    ensures Walk(m, o, s, i) != Walk(m, o, s, j)
  {
    if Walk(m, o, s, i) == Walk(m, o, s, j) {
      SameResidue(o + j * s, o + i * s, m);
      var k := (o + j * s) / m - (o + i * s) / m;
      assert (j - i) * s == m * k by { Distribute(s, j, i); }
      assert !Returns(m, s, j - i);
      DivModUnique((j - i) * s, m, k, 0);
    }
  }

  /** A generating step reaches every residue exactly once in the first `m` steps. */
  lemma WalkIsPermutation(m: nat, o: nat, s: nat)
    requires m > 0 && Generates(m, s)
    ensures forall i, j :: 0 <= i < j < m ==> Walk(m, o, s, i) != Walk(m, o, s, j)
    ensures forall x: nat :: x < m ==> Hits(m, o, s, x)
  {
    forall i, j | 0 <= i < j < m ensures Walk(m, o, s, i) != Walk(m, o, s, j) {
      WalkInjective(m, o, s, i, j);
    }
    var w := seq(m, n requires 0 <= n < m => Walk(m, o, s, n));
    Pigeonhole(w, m);
    forall x: nat | x < m ensures Hits(m, o, s, x) {
      assert x in w;
      var n :| 0 <= n < |w| && w[n] == x;
      assert Walk(m, o, s, n) == x;
    }
  }

  // ---------------------------------------------------------------------
  // Powers of two
  // ---------------------------------------------------------------------

  predicate PowerOfTwo(n: nat) {
    n == 1 || (n > 0 && n % 2 == 0 && PowerOfTwo(n / 2))
  }

  /** The largest power of two that divides `n`. */
  function LowBit(n: nat): (r: nat)
    requires n > 0
    ensures 0 < r <= n && PowerOfTwo(r)
  {
    if n % 2 == 1 then 1 else 2 * LowBit(n / 2)
  }

  lemma {:induction false} LowBitSplits(n: nat) returns (odd: nat)
    requires n > 0
    ensures n == LowBit(n) * odd && odd % 2 == 1
  {
    if n % 2 == 1 {
      odd := n;
    } else {
      odd := LowBitSplits(n / 2);
      assert 2 * (LowBit(n / 2) * odd) == (2 * LowBit(n / 2)) * odd;
    }
  }

  lemma {:induction false} PowerQuotient(a: nat, b: nat) returns (q: nat)
    requires PowerOfTwo(a) && PowerOfTwo(b) && a <= b
    ensures b == a * q && PowerOfTwo(q)
    decreases a
  {
    if a == 1 {
      q := b;
    } else {
      q := PowerQuotient(a / 2, b / 2);
      assert b == 2 * (b / 2) == 2 * (a / 2 * q) == a * q;
    }
  }

  lemma HalveProduct(a: nat, b: nat)
    ensures a * b == 2 * (a / 2 * b) + if a % 2 == 1 then b else 0
  {
    var h := a / 2;
    if a % 2 == 1 {
      assert a == 2 * h + 1;
      assert a * b == 2 * (h * b) + b;
    } else {
      assert a == 2 * h;
      assert a * b == 2 * (h * b);
    }
  }

  /** An odd step generates all residues modulo a power of two. */
  lemma {:induction false} OddNeverReturnsEarly(m: nat, s: nat, d: nat)
    requires PowerOfTwo(m) && s % 2 == 1 && 0 < d < m
    ensures !Returns(m, s, d)
    decreases m
  {
    var h, g, z := m / 2, d / 2, d * s / m;
    if Returns(m, s, d) {
      assert d * s == m * z;
      HalveProduct(m, z);
      HalveProduct(d, s);
      if d % 2 == 0 {
        OddNeverReturnsEarly(h, s, g);
        DivModUnique(g * s, h, z, 0);
      }
    }
  }

  lemma OddGenerates(m: nat, s: nat)
    requires PowerOfTwo(m) && s % 2 == 1
    ensures Generates(m, s)
  {
    forall d | 0 < d < m ensures !Returns(m, s, d) {
      OddNeverReturnsEarly(m, s, d);
    }
  }

  lemma DoubleProduct(m: nat, w: int)
    ensures m * (2 * w) == 2 * (m * w)
  {
  }

  /** Remainders of an even modulus keep the parity. */
  lemma {:induction false} EvenModulus(y: nat, m: nat)
    requires m > 0 && m % 2 == 0
    ensures y % m % 2 == y % 2
  {
    if y < m {
      DivModUnique(y, m, 0, y);
    } else {
      EvenModulus(y - m, m);
      ModAddMultiple(y - m, m, 1);
    }
  }

  /** An odd number that divides a double divides its half. */
  lemma HalfReturns(m: nat, x: nat)
    requires m % 2 == 1 && (2 * x) % m == 0
    ensures x % m == 0
  {
    var z := 2 * x / m;
    assert 2 * x == m * z;
    HalveProduct(m, z);
    var w := x - m / 2 * z;
    assert z == 2 * w;
    DoubleProduct(m, w);
    DivModUnique(x, m, w, 0);
  }

  lemma {:induction false} PowerNeverReturnsEarly(m: nat, s: nat, x: nat)
    requires m > 0 && PowerOfTwo(s) && (m % 2 == 1 || s == 1) && Returns(m, s, x)
    ensures x % m == 0
    decreases s
  {
    if s > 1 {
      assert x * s == 2 * (x * (s / 2));
      HalfReturns(m, x * (s / 2));
      PowerNeverReturnsEarly(m, s / 2, x);
    }
  }

  /** A power of two generates all residues modulo an odd number. */
  lemma PowerGenerates(m: nat, s: nat)
    requires m > 0 && PowerOfTwo(s) && (m % 2 == 1 || s == 1)
    ensures Generates(m, s)
  {
    forall d | 0 < d < m ensures !Returns(m, s, d) {
      DivModUnique(d, m, 0, d);
      if Returns(m, s, d) {
        PowerNeverReturnsEarly(m, s, d);
      }
    }
  }
}
