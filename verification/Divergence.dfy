/**
 When the ring construction ends. With an unsafe skip 32-bit wrap-around makes a probe
 sequence repeat before it has seen every slot, and a ring whose last free slots are missing
 ones traps the search. At the default ring size 65537 the one unsafe skip is 65536.
 */
module Divergence {
  import opened Residues
  import opened Probing
  import opened Maglev

  // ---------------------------------------------------------------------
  // Exactly when the construction ends
  // ---------------------------------------------------------------------

  /** The turn searches forever: a slot is free and every probe, however far, is occupied. */
  ghost predicate Stuck(es: seq<Endpoint>, size: nat, murmur: Murmur, t: nat)
    requires size >= 2 && |es| >= 2 && t < size
  {
    var turns := Schedule(Weights(es), size);
    var ring := Fill(Paths(es, size, murmur), turns, size, t);
    -1 in ring && forall n: nat :: ring[Slot(Permutation(es[turns[t]].hash, size, murmur), size, n)] >= 0
  }

  lemma SlotRepeats(p: Probe, size: nat, n: nat)
    requires size > 0
    ensures Slot(p, size, n) == Slot(p, size, n % U32)
  {
    SlotWrapsOnce(p, size, n);
    SlotWrapsOnce(p, size, n % U32);
    var q := n / U32 * p.skip;
    assert n == n % U32 + U32 * (n / U32);
    assert n * p.skip == n % U32 * p.skip + U32 * q;
    ModAddMultiple(p.offset + n % U32 * p.skip, U32, q);
  }

  lemma EndlessSearch(ring: seq<int>, p: Probe)
    requires |ring| > 0 && !Finds(ring, PathOf(p, |ring|))
    ensures forall n: nat :: ring[Slot(p, |ring|, n)] >= 0
  {
    var path := PathOf(p, |ring|);
    forall n: nat ensures ring[Slot(p, |ring|, n)] >= 0 {
      SlotRepeats(p, |ring|, n);
      assert path[n % U32] == Slot(p, |ring|, n);
    }
  }

  /** A construction that does not end is stuck at some turn. */
  lemma NotEndingIsStuck(es: seq<Endpoint>, size: nat, murmur: Murmur) returns (t: nat)
    requires size >= 2 && |es| >= 2 && !Ends(es, size, murmur)
    ensures t < size && Stuck(es, size, murmur, t)
  {
    var paths, turns := Paths(es, size, murmur), Schedule(Weights(es), size);
    t :| t < size && !Finds(Fill(paths, turns, size, t), paths[turns[t]]);
    hide Fill, Finds, Schedule, PathOf, Slot;
    FreeLeft(paths, turns, size, t);
    EndlessSearch(Fill(paths, turns, size, t), Permutation(es[turns[t]].hash, size, murmur));
  }

  /** A slot that is free was free before. */
  lemma {:induction false} FreeEarlier(paths: seq<Path>, turns: seq<nat>, size: nat, from: nat, t: nat, x: nat)
    requires ValidPaths(paths, size) && ValidTurns(turns, |paths|) && from <= t <= |turns| && x < size
    requires Fill(paths, turns, size, t)[x] == -1
    ensures Fill(paths, turns, size, from)[x] == -1
    decreases t
  {
    hide FirstFree;
    if from < t {
      FreeEarlier(paths, turns, size, from, t - 1, x);
    }
  }

  /** A slot that the endpoint does not probe stays free during its turns. */
  lemma {:induction false} MissedStaysFree(paths: seq<Path>, turns: seq<nat>, size: nat, from: nat, t: nat, i: nat,
                                           x: nat)
    requires ValidPaths(paths, size) && ValidTurns(turns, |paths|) && from <= t <= |turns| && i < |paths|
    requires x < size && x !in paths[i] && forall s :: from <= s < |turns| ==> turns[s] == i
    requires Fill(paths, turns, size, from)[x] == -1
    ensures Fill(paths, turns, size, t)[x] == -1
    decreases t
  {
    hide FirstFree;
    if from < t {
      MissedStaysFree(paths, turns, size, from, t - 1, i, x);
    }
  }

  /** The turns before `from` all find a slot. */
  ghost predicate FindsUntil(paths: seq<Path>, turns: seq<nat>, size: nat, from: nat)
    requires ValidPaths(paths, size) && ValidTurns(turns, |paths|) && from <= |turns|
  {
    forall t :: 0 <= t < from ==> Finds(Fill(paths, turns, size, t), paths[turns[t]])
  }

  /** Every free slot is on the path. */
  ghost predicate ReachesFree(ring: seq<int>, path: Path) {
    forall x :: 0 <= x < |ring| && ring[x] == -1 ==> x in path
  }

  lemma NoneLeft(paths: seq<Path>, turns: seq<nat>, size: nat)
    requires ValidPaths(paths, size) && ValidTurns(turns, |paths|) && |turns| == size
    requires EveryTurnFinds(paths, turns, size)
    ensures forall x :: 0 <= x < size ==> Fill(paths, turns, size, size)[x] != -1
  {
    FillCounts(paths, turns, size, size, -1);
    hide Fill, EveryTurnFinds;
    var ring := Fill(paths, turns, size, size);
    assert -1 !in multiset(ring);
    assert forall x :: 0 <= x < size ==> ring[x] in multiset(ring);
  }

  /** When one endpoint has all the turns from `from` on, they all find a slot if it reaches every free one. */
  lemma TailEndsIff(paths: seq<Path>, turns: seq<nat>, size: nat, from: nat, i: nat)
    requires ValidPaths(paths, size) && ValidTurns(turns, |paths|) && from <= |turns| == size && i < |paths|
    requires forall t :: from <= t < size ==> turns[t] == i
    ensures EveryTurnFinds(paths, turns, size) <==>
      FindsUntil(paths, turns, size, from) && ReachesFree(Fill(paths, turns, size, from), paths[i])
  {
    hide Fill, FirstFree;
    if EveryTurnFinds(paths, turns, size) {
      NoneLeft(paths, turns, size);
      forall x | 0 <= x < size && Fill(paths, turns, size, from)[x] == -1 ensures x in paths[i] {
        if x !in paths[i] { MissedStaysFree(paths, turns, size, from, size, i, x); }
      }
    }
    if FindsUntil(paths, turns, size, from) && ReachesFree(Fill(paths, turns, size, from), paths[i]) {
      forall t | 0 <= t < size ensures Finds(Fill(paths, turns, size, t), paths[turns[t]]) {
        if from <= t {
          FreeLeft(paths, turns, size, t);
          var x: nat :| x < size && Fill(paths, turns, size, t)[x] == -1;
          FreeEarlier(paths, turns, size, from, t, x);
          assert x in paths[i] && turns[t] == i;
        }
      }
    }
  }

  /** An endpoint heavier than the ring takes every turn after those before it. */
  lemma OneTakesRest(ws: seq<nat>, n: nat, i: nat)
    requires i < |ws| && ws[i] >= n
    ensures forall t :: Prefix(ws, i) <= t < n ==> Schedule(ws, n)[t] == i
  {
    hide Owner, Schedule;
    forall t | Prefix(ws, i) <= t < n ensures Schedule(ws, n)[t] == i {
      FirstRoundOwner(ws, i, t);
    }
  }

  /**
   With an endpoint heavier than the ring, whatever the other weights: the construction ends if
   and only if the turns before it end and leave free only slots that it probes.
   */
  lemma HeavyEndsIff(es: seq<Endpoint>, size: nat, murmur: Murmur, i: nat)
    requires size >= 2 && |es| >= 2 && i < |es| && es[i].weight >= size && Prefix(Weights(es), i) <= size
    ensures var paths, turns, from := Paths(es, size, murmur), Schedule(Weights(es), size), Prefix(Weights(es), i);
      Ends(es, size, murmur) <==>
        FindsUntil(paths, turns, size, from) && ReachesFree(Fill(paths, turns, size, from), paths[i])
  {
    hide Schedule, PathOf, Fill, Prefix, EveryTurnFinds, FindsUntil, ReachesFree;
    OneTakesRest(Weights(es), size, i);
    TailEndsIff(Paths(es, size, murmur), Schedule(Weights(es), size), size, Prefix(Weights(es), i), i);
  }

  /** An unsafe skip does not end the construction when its endpoint is heavy enough and comes first. */
  lemma UnsafeDiverges(es: seq<Endpoint>, size: nat, murmur: Murmur, i: nat)
    requires 2 <= size < U32 && |es| >= 2 && i < |es|
    requires !SafeSkip(Permutation(es[i].hash, size, murmur), size)
    requires Prefix(Weights(es), i) == 0 && es[i].weight >= size
    ensures !Ends(es, size, murmur)
  {
    HeavyEndsIff(es, size, murmur, i);
    hide Schedule, PathOf, Slot, Permutation, SafeSkip, Prefix, Ends;
    var x := PathMisses(Permutation(es[i].hash, size, murmur), size);
    assert x !in Paths(es, size, murmur)[i];
  }

  /** With a first endpoint heavier than the ring, and any other weights, its skip decides. */
  lemma FirstHeavyEndsIff(es: seq<Endpoint>, size: nat, murmur: Murmur)
    requires 2 <= size < U32 && |es| >= 2 && es[0].weight >= size
    ensures Ends(es, size, murmur) <==> SafeSkip(Permutation(es[0].hash, size, murmur), size)
  {
    hide SafeSkip, Permutation, Ends, PathOf, Covers, Schedule;
    var p := Permutation(es[0].hash, size, murmur);
    if SafeSkip(p, size) {
      HeavyEndsIff(es, size, murmur, 0);
      SafeSkipCovers(p, size);
      PathCovers(p, size);
      assert Paths(es, size, murmur)[0] == PathOf(p, size);
      hide Paths, Fill, Finds;
    } else {
      UnsafeDiverges(es, size, murmur, 0);
    }
  }

  lemma PathMisses(p: Probe, size: nat) returns (x: nat)
    requires InRange(p, size) && size < U32 && !SafeSkip(p, size)
    ensures x < size && x !in PathOf(p, size)
  {
    x := UnsafeSkipMisses(p, size);
    hide Slot;
    assert forall n :: 0 <= n < U32 ==> PathOf(p, size)[n] == Slot(p, size, n);
  }

  /** The same endpoints, with any weights. */
  ghost predicate Reweighted(es: seq<Endpoint>, fs: seq<Endpoint>) {
    |fs| == |es| && forall i :: 0 <= i < |es| ==> fs[i].hash == es[i].hash && fs[i].num == es[i].num
  }

  function OnlyWeight(es: seq<Endpoint>, i: nat, weight: nat): (fs: seq<Endpoint>)
    ensures |fs| == |es|
    ensures forall k :: 0 <= k < |es| ==> fs[k] == es[k].(weight := if k == i then weight else 0)
  {
    seq(|es|, k requires 0 <= k < |es| => es[k].(weight := if k == i then weight else 0))
  }

  /**
   For every ring size and every hash function: the construction ends for all weights of the
   endpoints if and only if every endpoint's skip is safe.
   */
  lemma EndsForAllWeightsIff(es: seq<Endpoint>, size: nat, murmur: Murmur)
    requires 2 <= size < U32 && |es| >= 2
    ensures (forall fs :: Reweighted(es, fs) ==> Ends(fs, size, murmur)) <==> SafeEndpoints(es, size, murmur)
  {
    hide SafeSkip, Permutation, Ends;
    if SafeEndpoints(es, size, murmur) {
      forall fs | Reweighted(es, fs) ensures Ends(fs, size, murmur) {
        SafeEndpointsEnd(fs, size, murmur);
      }
    } else {
      var i :| 0 <= i < |es| && !SafeSkip(Permutation(es[i].hash, size, murmur), size);
      var fs := OnlyWeight(es, i, size);
      ZeroPrefix(Weights(fs), i);
      UnsafeDiverges(fs, size, murmur, i);
      assert Reweighted(es, fs) && !Ends(fs, size, murmur);
    }
  }

  // ---------------------------------------------------------------------
  // Weights of 1 at the default ring size
  // ---------------------------------------------------------------------

  const R: nat := DEFAULT_RING

  /** Two endpoints of weight 1 whose hashes give (offset, skip) (0, 65536) and (2, 1). */
  const PAIR: seq<Endpoint> := [Endpoint(0, 1, 0), Endpoint(1, 1, 1)]

  function PairHash(hash: nat, seed: nat, salt: nat): nat {
    if hash == 0 then (if seed == HASH_SEED_2 then 0 else 65535)
    else (if seed == HASH_SEED_2 then 2 else 0)
  }

  const DOWN: Probe := Probe(0, 65536)
  const UP: Probe := Probe(2, 1)

  lemma PairProbes()
    ensures Permutation(PAIR[0].hash, R, PairHash) == DOWN
    ensures Permutation(PAIR[1].hash, R, PairHash) == UP
  {
  }

  lemma PairInputs()
    ensures Permutation(PAIR[0].hash, R, PairHash) == DOWN
    ensures Permutation(PAIR[1].hash, R, PairHash) == UP
    ensures Weights(PAIR) == [1, 1]
    ensures Paths(PAIR, R, PairHash) == [PathOf(DOWN, R), PathOf(UP, R)]
    ensures !SafeEndpoints(PAIR, R, PairHash)
  {
    hide PathOf, Permutation, SafeSkip, LowBit;
    PairProbes();
    DefaultRingSafety(DOWN);
    assert !SafeSkip(Permutation(PAIR[0].hash, R, PairHash), R);
  }

  /** Skip 65536 walks down from slot 0 and starts over after 65536 probes. */
  lemma DownSlot(n: nat)
    ensures Slot(DOWN, R, n) == if n % 65536 == 0 then 0 else R - n % 65536
  {
    var q, m := n / 65536, n % 65536;
    assert n * 65536 == U32 * q + m * 65536;
    DivModUnique(n * 65536, U32, q, m * 65536);
    if m > 0 {
      assert m * 65536 == R * (m - 1) + (R - m);
      DivModUnique(m * 65536, R, m - 1, R - m);
    }
  }

  lemma UpSlot(n: nat)
    requires n < R - 2
    ensures Slot(UP, R, n) == 2 + n
  {
  }

  /** `a` slots taken downwards from 0 by endpoint 0 and `b` upwards from 2 by endpoint 1. */
  function Shape(a: nat, b: nat): (r: seq<int>)
    ensures |r| == R
  {
    seq(R, x => ShapeAt(a, b, x))
  }

  function ShapeAt(a: nat, b: nat, x: int): int {
    if (x == 0 && 0 < a) || (0 < x && R - x < a) then 0 else if 2 <= x < 2 + b then 1 else -1
  }

  /** The first free probe is determined by what it is. */
  lemma FirstFreeIs(ring: seq<int>, path: Path, n: nat)
    requires ValidPath(path, |ring|) && n <= |path| && (n < |path| ==> ring[path[n]] < 0)
    requires forall m :: 0 <= m < n ==> ring[path[m]] >= 0
    ensures FirstFree(ring, path, 0) == n
  {
  }

  lemma DownTurn(a: nat, b: nat)
    requires a + b + 2 <= R && a < 65536
    ensures TakeTurn(Shape(a, b), PathOf(DOWN, R), 0) == Shape(a + 1, b)
  {
    var ring, path := Shape(a, b), PathOf(DOWN, R);
    forall m | 0 <= m <= a ensures path[m] == if m == 0 then 0 else R - m {
      DownSlot(m);
    }
    FirstFreeIs(ring, path, a);
    assert ring[path[a] := 0] == Shape(a + 1, b);
  }

  lemma UpTurn(a: nat, b: nat)
    requires a + b + 2 <= R && b + 2 < R
    ensures TakeTurn(Shape(a, b), PathOf(UP, R), 1) == Shape(a, b + 1)
  {
    var ring, path := Shape(a, b), PathOf(UP, R);
    forall m | 0 <= m <= b ensures path[m] == 2 + m && (m < b ==> ring[path[m]] >= 0) {
      UpSlot(m);
    }
    FirstFreeIs(ring, path, b);
    assert ring[path[b] := 1] == Shape(a, b + 1);
  }

  lemma TwoTurns(paths: seq<Path>, turns: seq<nat>, size: nat, t: nat)
    requires |paths| == 2 && ValidPaths(paths, size) && ValidTurns(turns, 2)
    requires t + 2 <= |turns| && turns[t] == 0 && turns[t + 1] == 1
    ensures Fill(paths, turns, size, t + 2)
         == TakeTurn(TakeTurn(Fill(paths, turns, size, t), paths[0], 0), paths[1], 1)
  {
  }

  ghost predicate Alternating(turns: seq<nat>) {
    ValidTurns(turns, 2) && forall t :: 0 <= t < |turns| ==> turns[t] == t % 2
  }

  lemma PairSchedule(ws: seq<nat>, n: nat)
    requires ws == [1, 1]
    ensures Alternating(Schedule(ws, n))
  {
  }

  lemma {:induction false} PairFill(down: Path, up: Path, turns: seq<nat>, k: nat)
    requires down == PathOf(DOWN, R) && up == PathOf(UP, R)
    requires Alternating(turns) && 2 * k <= |turns| && k <= 32768
    ensures Fill([down, up], turns, R, 2 * k) == Shape(k, k)
  {
    hide TakeTurn, FirstFree, PathOf;
    if k == 0 {
      assert EmptyRing(R) == Shape(0, 0);
    } else {
      PairFill(down, up, turns, k - 1);
      DownTurn(k - 1, k - 1);
      UpTurn(k, k - 1);
      TwoTurns([down, up], turns, R, 2 * (k - 1));
    }
  }

  lemma DownIsTrapped(n: nat, ring: seq<int>)
    requires ring == Shape(32768, 32768)
    ensures ring[Slot(DOWN, R, n)] >= 0
  {
    DownSlot(n);
    hide Slot;
    var m := n % 65536;
    assert ring[Slot(DOWN, R, n)] == ShapeAt(32768, 32768, if m == 0 then 0 else R - m);
  }

  lemma PairIsTrapped(down: Path, up: Path, turns: seq<nat>, k: nat, ring: seq<int>)
    requires down == PathOf(DOWN, R) && up == PathOf(UP, R)
    requires Alternating(turns) && |turns| == R && k == 32768
    requires ring == Fill([down, up], turns, R, 2 * k)
    ensures ring[1] == -1 && forall n: nat :: ring[Slot(DOWN, R, n)] >= 0
  {
    PairFill(down, up, turns, k);
    forall n: nat ensures ring[Slot(DOWN, R, n)] >= 0 {
      DownIsTrapped(n, ring);
    }
  }

  /**
   After 65536 turns slot 1 is the only free slot and it is the first endpoint's turn, whose
   probes, all of them, land on occupied slots: the inner search never ends.
   */
  lemma DefaultRingCanDiverge(half: nat)
    requires 2 * half == R - 1
    ensures IsPrime(R) && !SafeEndpoints(PAIR, R, PairHash)
    ensures var turns := Schedule(Weights(PAIR), R);
      && turns[2 * half] == 0
      && Fill(Paths(PAIR, R, PairHash), turns, R, 2 * half)[1] == -1
      && forall n: nat ::
        Fill(Paths(PAIR, R, PairHash), turns, R, 2 * half)
          [Slot(Permutation(PAIR[0].hash, R, PairHash), R, n)] >= 0
  {
    hide Owner, Slot, IsPrime, PathOf, Fill, Schedule, TakeTurn, Prefix, Paths, Weights, Permutation;
    DefaultRingIsPrime();
    PairInputs();
    PairSchedule(Weights(PAIR), R);
    var paths, turns := Paths(PAIR, R, PairHash), Schedule(Weights(PAIR), R);
    PairIsTrapped(paths[0], paths[1], turns, half, Fill(paths, turns, R, 2 * half));
  }
}
