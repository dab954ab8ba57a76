/**
 Weighted Maglev hashing (CHHelpers.cpp). The ring is specified by the rule of the
 published algorithm: turn by turn, the endpoint whose turn it is takes the first
 free slot of its own probe sequence. The program's nested loops, with their
 remembered probe positions, are proved to compute exactly that ring.
 */
module Maglev {
  import opened Residues
  import opened Probing

  datatype Endpoint = Endpoint(num: nat, weight: nat, hash: nat)

  /** MurmurHash3_x64_64, which the ring only assumes to be a function. */
  type Murmur = (nat, nat, nat) -> nat

  /** Ring cells are signed 32-bit and negative means free, so numbers stay below 2^31. */
  const I32: nat := 0x8000_0000

  const HASH_SEED_0: nat := 0
  const HASH_SEED_1: nat := 2307
  const HASH_SEED_2: nat := 42
  const HASH_SEED_3: nat := 2718281828

  function Permutation(hash: nat, size: nat, murmur: Murmur): (p: Probe)
    requires size >= 2
    ensures InRange(p, size)
  {
    Probe(murmur(hash, HASH_SEED_2, HASH_SEED_0) % size,
          murmur(hash, HASH_SEED_3, HASH_SEED_1) % (size - 1) + 1)
  }

  // ---------------------------------------------------------------------
  // Whose turn it is
  // ---------------------------------------------------------------------

  /** Total weight of the first `i` endpoints. */
  function Prefix(ws: seq<nat>, i: nat): nat
    requires i <= |ws|
  {
    if i == 0 then 0 else Prefix(ws, i - 1) + ws[i - 1]
  }

  function FirstRound(ws: seq<nat>, i: nat, t: nat): (r: nat)
    requires i < |ws| && Prefix(ws, i) <= t < Prefix(ws, |ws|)
    ensures r < |ws| && Prefix(ws, r) <= t < Prefix(ws, r + 1)
    decreases |ws| - i
  {
    if t < Prefix(ws, i + 1) then i else FirstRound(ws, i + 1, t)
  }

  /** Endpoint that takes turn `t`: first everyone's weight in order, then one each, round and round. */
  function Owner(ws: seq<nat>, t: nat): (r: nat)
    requires |ws| > 0
    ensures r < |ws|
  {
    if t < Prefix(ws, |ws|) then FirstRound(ws, 0, t) else (t - Prefix(ws, |ws|)) % |ws|
  }

  lemma {:induction false} PrefixMonotone(ws: seq<nat>, i: nat, j: nat)
    requires i <= j <= |ws|
    ensures Prefix(ws, i) <= Prefix(ws, j)
    decreases j
  {
    if i < j {
      PrefixMonotone(ws, i, j - 1);
    }
  }

  lemma FirstRoundOwner(ws: seq<nat>, i: nat, t: nat)
    requires i < |ws| && Prefix(ws, i) <= t < Prefix(ws, i + 1)
    ensures Owner(ws, t) == i
  {
    PrefixMonotone(ws, i + 1, |ws|);
    var r := FirstRound(ws, 0, t);
    if r < i {
      PrefixMonotone(ws, r + 1, i);
    } else if r > i {
      PrefixMonotone(ws, i + 1, r);
    }
  }

  lemma LaterRoundOwner(ws: seq<nat>, round: nat, i: nat)
    requires i < |ws|
    ensures Owner(ws, Prefix(ws, |ws|) + |ws| * round + i) == i
  {
    DivModUnique(|ws| * round + i, |ws|, round, i);
  }

  /** Who takes each of the first `t` turns. */
  ghost function Schedule(ws: seq<nat>, t: nat): (turns: seq<nat>)
    requires |ws| > 0
    ensures |turns| == t && forall k :: 0 <= k < t ==> turns[k] == Owner(ws, k) < |ws|
  {
    if t == 0 then [] else Schedule(ws, t - 1) + [Owner(ws, t - 1)]
  }

  /** Closed form: the weight if it fits, then an equal share of the rest, remainders first come. */
  function Share(ws: seq<nat>, total: nat, i: nat): nat
    requires i < |ws|
  {
    var sum := Prefix(ws, |ws|);
    if total < sum then
      var left := if total <= Prefix(ws, i) then 0 else total - Prefix(ws, i);
      if ws[i] <= left then ws[i] else left
    else
      ws[i] + (total - sum) / |ws| + if i < (total - sum) % |ws| then 1 else 0
  }

  lemma NextShare(x: nat, n: nat, i: nat)
    requires i < n
    ensures (x + 1) / n + (if i < (x + 1) % n then 1 else 0)
         == x / n + (if i < x % n then 1 else 0) + if x % n == i then 1 else 0
  {
    if x % n + 1 < n {
      DivModUnique(x + 1, n, x / n, x % n + 1);
    } else {
      Distribute(n, x / n, 1);
      DivModUnique(x + 1, n, x / n + 1, 0);
    }
  }

  lemma ShareStep(ws: seq<nat>, t: nat, i: nat)
    requires i < |ws|
    ensures Share(ws, 0, i) == 0
    ensures Share(ws, t + 1, i) == Share(ws, t, i) + if Owner(ws, t) == i then 1 else 0
  {
    var sum, o := Prefix(ws, |ws|), Owner(ws, t);
    PrefixMonotone(ws, i + 1, |ws|);
    DivModUnique(0, |ws|, 0, 0);
    if t < sum {
      if o < i {
        PrefixMonotone(ws, o + 1, i);
      } else if i < o {
        PrefixMonotone(ws, i + 1, o);
      }
    } else {
      NextShare(t - sum, |ws|, i);
    }
  }

  /** Endpoint `i` takes exactly its share of the turns. */
  lemma {:induction false} ScheduleShares(ws: seq<nat>, t: nat, i: nat)
    requires i < |ws|
    ensures multiset(Schedule(ws, t))[i] == Share(ws, t, i)
  {
    hide Share, Owner, Prefix, Schedule;
    if t == 0 {
      ShareStep(ws, 0, i);
      NoTurns(ws, i);
    } else {
      ScheduleShares(ws, t - 1, i);
      ShareStep(ws, t - 1, i);
      OneMoreTurn(ws, t - 1, i);
    }
  }

  lemma NoTurns(ws: seq<nat>, i: nat)
    requires |ws| > 0
    ensures multiset(Schedule(ws, 0))[i] == 0
  {
    assert Schedule(ws, 0) == [];
  }

  lemma OneMoreTurn(ws: seq<nat>, t: nat, i: nat)
    requires |ws| > 0
    ensures multiset(Schedule(ws, t + 1))[i] == multiset(Schedule(ws, t))[i] + if Owner(ws, t) == i then 1 else 0
  {
    hide Owner;
    CountAppend(Schedule(ws, t), Owner(ws, t), i);
  }

  lemma CountAppend(s: seq<nat>, x: nat, v: nat)
    ensures multiset(s + [x])[v] == multiset(s)[v] + if x == v then 1 else 0
  {
  }

  // ---------------------------------------------------------------------
  // Filling the ring
  // ---------------------------------------------------------------------

  /** First probe at or after `n` that lands on a free slot; the path's length when there is none. */
  ghost function FirstFree(ring: seq<int>, path: Path, n: nat): (r: nat)
    requires ValidPath(path, |ring|) && n <= |path|
    ensures n <= r <= |path|
    ensures r < |path| ==> ring[path[r]] < 0
    ensures forall m :: n <= m < r ==> ring[path[m]] >= 0
    decreases |path| - n
  {
    if n == |path| || ring[path[n]] < 0 then n else FirstFree(ring, path, n + 1)
  }

  /** The endpoint takes the first free slot of its path; with none left the turn changes nothing. */
  ghost function TakeTurn(ring: seq<int>, path: Path, i: int): (r: seq<int>)
    requires ValidPath(path, |ring|)
    ensures |r| == |ring|
  {
    var n := FirstFree(ring, path, 0);
    if n == |path| then ring else ring[path[n] := i]
  }

  function EmptyRing(size: nat): (r: seq<int>)
    ensures |r| == size && forall k :: 0 <= k < size ==> r[k] == -1
  {
    seq(size, _ => -1)
  }

  ghost predicate ValidPaths(paths: seq<Path>, size: nat) {
    forall i :: 0 <= i < |paths| ==> ValidPath(paths[i], size)
  }

  ghost predicate ValidTurns(turns: seq<nat>, n: nat) {
    forall k :: 0 <= k < |turns| ==> turns[k] < n
  }

  /** Ring after `t` turns: the endpoint index that owns each slot, or -1. */
  ghost function Fill(paths: seq<Path>, turns: seq<nat>, size: nat, t: nat): (r: seq<int>)
    requires ValidPaths(paths, size) && ValidTurns(turns, |paths|) && t <= |turns|
    ensures |r| == size
  {
    if t == 0 then EmptyRing(size) else
      TakeTurn(Fill(paths, turns, size, t - 1), paths[turns[t - 1]], turns[t - 1])
  }

  /** Every turn finds a free slot to claim: no search of the program goes on forever. */
  ghost predicate EveryTurnFinds(paths: seq<Path>, turns: seq<nat>, size: nat)
    requires ValidPaths(paths, size) && ValidTurns(turns, |paths|)
  {
    forall t :: 0 <= t < |turns| ==> Finds(Fill(paths, turns, size, t), paths[turns[t]])
  }

  ghost predicate Finds(ring: seq<int>, path: Path)
    requires ValidPath(path, |ring|)
  {
    FirstFree(ring, path, 0) < |path|
  }

  /** A covering path finds a free slot whenever one is left. */
  lemma CoveringFindsFree(ring: seq<int>, path: Path)
    requires CoveringPath(path, |ring|) && -1 in ring
    ensures FirstFree(ring, path, 0) < |path|
  {
    var x: nat :| x < |ring| && ring[x] == -1;
    assert x in path;
  }

  lemma {:induction false} EmptyRingCounts(size: nat, v: int)
    ensures multiset(EmptyRing(size))[v] == if v == -1 then size else 0
  {
    if size > 0 {
      EmptyRingCounts(size - 1, v);
      assert EmptyRing(size) == EmptyRing(size - 1) + [-1];
    }
  }

  ghost predicate AllCover(paths: seq<Path>, size: nat) {
    forall i :: 0 <= i < |paths| ==> CoveringPath(paths[i], size)
  }

  /** A turn takes at most one slot. */
  lemma TurnTakesOne(ring: seq<int>, path: Path, o: nat)
    requires ValidPath(path, |ring|)
    ensures multiset(TakeTurn(ring, path, o))[-1] + 1 >= multiset(ring)[-1]
  {
  }

  lemma {:induction false} FreeLeft(paths: seq<Path>, turns: seq<nat>, size: nat, t: nat)
    requires ValidPaths(paths, size) && ValidTurns(turns, |paths|) && t <= |turns|
    ensures multiset(Fill(paths, turns, size, t))[-1] >= size - t
    ensures t < size ==> -1 in Fill(paths, turns, size, t)
  {
    hide TakeTurn;
    if t == 0 {
      EmptyRingCounts(size, -1);
    } else {
      FreeLeft(paths, turns, size, t - 1);
      TurnTakesOne(Fill(paths, turns, size, t - 1), paths[turns[t - 1]], turns[t - 1]);
    }
    assert multiset(Fill(paths, turns, size, t))[-1] > 0 ==> -1 in multiset(Fill(paths, turns, size, t));
  }

  /** Covering paths never search in vain. */
  lemma CoveringFinds(paths: seq<Path>, turns: seq<nat>, size: nat)
    requires AllCover(paths, size) && ValidTurns(turns, |paths|) && |turns| <= size
    ensures EveryTurnFinds(paths, turns, size)
  {
    forall t | 0 <= t < |turns| ensures Finds(Fill(paths, turns, size, t), paths[turns[t]]) {
      FreeLeft(paths, turns, size, t);
      CoveringFindsFree(Fill(paths, turns, size, t), paths[turns[t]]);
    }
  }

  /** Every turn claims one free slot, so an endpoint owns as many slots as it had turns. */
  lemma {:induction false} FillCounts(paths: seq<Path>, turns: seq<nat>, size: nat, t: nat, v: int)
    requires ValidPaths(paths, size) && ValidTurns(turns, |paths|) && t <= |turns| <= size
    requires EveryTurnFinds(paths, turns, size)
    ensures multiset(Fill(paths, turns, size, t))[v] ==
            if v >= 0 then multiset(turns[..t])[v] else if v == -1 then size - t else 0
  {
    hide TakeTurn, Finds;
    if t == 0 {
      EmptyRingCounts(size, v);
    } else {
      var ring, o := Fill(paths, turns, size, t - 1), turns[t - 1];
      assert Finds(ring, paths[o]) && Fill(paths, turns, size, t) == TakeTurn(ring, paths[o], o);
      hide EveryTurnFinds, Fill;
      FillCounts(paths, turns, size, t - 1, v);
      FillRange(paths, turns, size, t - 1);
      TurnCounts(ring, paths[o], o, v);
      assert turns[..t] == turns[..t - 1] + [o];
      if v >= 0 { CountAppend(turns[..t - 1], o, v); }
    }
  }

  /** A turn that finds a slot moves it from free to owned. */
  lemma TurnCounts(ring: seq<int>, path: Path, o: nat, v: int)
    requires ValidPath(path, |ring|) && Finds(ring, path)
    requires forall k :: 0 <= k < |ring| ==> ring[k] >= -1
    ensures multiset(TakeTurn(ring, path, o))[v]
         == multiset(ring)[v] + (if v == o then 1 else 0) - if v == -1 then 1 else 0
  {
    assert ring[path[FirstFree(ring, path, 0)]] == -1;
  }

  lemma {:induction false} FillRange(paths: seq<Path>, turns: seq<nat>, size: nat, t: nat)
    requires ValidPaths(paths, size) && ValidTurns(turns, |paths|) && t <= |turns|
    ensures forall k :: 0 <= k < size ==> -1 <= Fill(paths, turns, size, t)[k] < |paths|
  {
    if t > 0 {
      FillRange(paths, turns, size, t - 1);
    }
  }

  function Weights(es: seq<Endpoint>): (ws: seq<nat>)
    ensures |ws| == |es|
  {
    seq(|es|, i requires 0 <= i < |es| => es[i].weight)
  }

  ghost function Paths(es: seq<Endpoint>, size: nat, murmur: Murmur): (paths: seq<Path>)
    requires size >= 2
    ensures |paths| == |es| && ValidPaths(paths, size)
  {
    seq(|es|, i requires 0 <= i < |es| => PathOf(Permutation(es[i].hash, size, murmur), size))
  }

  /** Which endpoint owns each slot. It depends on weights and hashes, never on numbers. */
  ghost function OwnerRing(es: seq<Endpoint>, size: nat, murmur: Murmur): (r: seq<int>)
    requires |es| >= 2 ==> size >= 2
    ensures |r| == size
  {
    if |es| == 0 then EmptyRing(size)
    else if |es| == 1 then seq(size, _ => 0)
    else Fill(Paths(es, size, murmur), Schedule(Weights(es), size), size, size)
  }

  function Label(es: seq<Endpoint>, o: int): (r: int)
    ensures 0 <= o < |es| ==> r == es[o].num
  {
    if 0 <= o < |es| then es[o].num else -1
  }

  function Labels(es: seq<Endpoint>, owners: seq<int>): (r: seq<int>)
    ensures |r| == |owners| && forall k :: 0 <= k < |r| ==> r[k] == Label(es, owners[k])
  {
    seq(|owners|, k requires 0 <= k < |owners| => Label(es, owners[k]))
  }

  /** The ring of real numbers that `GenerateMaglevHash` returns. */
  ghost function MaglevRing(es: seq<Endpoint>, size: nat, murmur: Murmur): (r: seq<int>)
    requires |es| >= 2 ==> size >= 2
    ensures |r| == size
  {
    Labels(es, OwnerRing(es, size, murmur))
  }

  lemma {:induction false} ZeroPrefix(ws: seq<nat>, i: nat)
    requires i <= |ws| && forall k :: 0 <= k < i ==> ws[k] == 0
    ensures Prefix(ws, i) == 0
  {
    if i > 0 {
      ZeroPrefix(ws, i - 1);
    }
  }

  /** A slot that is taken stays with its owner. */
  lemma {:induction false} OwnerStays(paths: seq<Path>, turns: seq<nat>, size: nat, from: nat, t: nat, x: nat)
    requires ValidPaths(paths, size) && ValidTurns(turns, |paths|) && from <= t <= |turns| && x < size
    requires Fill(paths, turns, size, from)[x] >= 0
    ensures Fill(paths, turns, size, t)[x] == Fill(paths, turns, size, from)[x]
    decreases t
  {
    hide FirstFree;
    if from < t {
      OwnerStays(paths, turns, size, from, t - 1, x);
    }
  }

  /** The first turn takes the first slot of the endpoint's path. */
  lemma FirstTurn(paths: seq<Path>, turns: seq<nat>, size: nat)
    requires ValidPaths(paths, size) && ValidTurns(turns, |paths|) && |turns| >= 1
    ensures var path := paths[turns[0]];
      Fill(paths, turns, size, 1) == EmptyRing(size)[path[0] := turns[0]]
  {
    var path := paths[turns[0]];
    assert Fill(paths, turns, size, 0) == EmptyRing(size);
    assert FirstFree(EmptyRing(size), path, 0) == 0;
    assert Fill(paths, turns, size, 1) == TakeTurn(Fill(paths, turns, size, 0), path, turns[0]);
  }

  lemma FirstOwner(es: seq<Endpoint>, size: nat, murmur: Murmur, i: nat)
    requires size >= 2 && |es| >= 2 && i < |es| && es[i].weight > 0 && forall k :: 0 <= k < i ==> es[k].weight == 0
    ensures var x := Slot(Permutation(es[i].hash, size, murmur), size, 0); OwnerRing(es, size, murmur)[x] == i
  {
    var paths, turns := Paths(es, size, murmur), Schedule(Weights(es), size);
    ZeroPrefix(Weights(es), i);
    FirstRoundOwner(Weights(es), i, 0);
    hide Schedule, Owner, Fill, Slot, Permutation, Prefix;
    FirstTurn(paths, turns, size);
    var x := paths[i][0];
    OwnerStays(paths, turns, size, 1, size, x);
  }

  /**
   Where a ring starts: the first endpoint of positive weight has the slot of its offset hash,
   which is the hash of its address hash with 42 and 0.
   */
  lemma FirstSlot(es: seq<Endpoint>, size: nat, murmur: Murmur, i: nat)
    requires 2 <= size < U32 && i < |es| && es[i].weight > 0 && forall k :: 0 <= k < i ==> es[k].weight == 0
    ensures |es| >= 2 || i == 0
    ensures MaglevRing(es, size, murmur)[murmur(es[i].hash, 42, 0) % size] == es[i].num
  {
    if |es| >= 2 {
      var p := Permutation(es[i].hash, size, murmur);
      FirstOwner(es, size, murmur, i);
      NoStep(p, size);
      hide OwnerRing, Slot;
    }
  }

  /** With a weight of 2 or more it has the next slot too, a step of its skip hash on. */
  lemma SecondSlot(es: seq<Endpoint>, size: nat, murmur: Murmur, i: nat)
    requires 2 <= size <= 0x8000_0000 && |es| >= 2 && i < |es| && es[i].weight >= 2
    requires forall k :: 0 <= k < i ==> es[k].weight == 0
    ensures var offset, skip := murmur(es[i].hash, 42, 0) % size, murmur(es[i].hash, 2718281828, 2307) % (size - 1) + 1;
      MaglevRing(es, size, murmur)[(offset + skip) % size] == es[i].num
  {
    var p := Permutation(es[i].hash, size, murmur);
    TwoSlots(p, size);
    SecondOwner(es, size, murmur, i);
    hide OwnerRing, Slot;
  }

  lemma SecondOwner(es: seq<Endpoint>, size: nat, murmur: Murmur, i: nat)
    requires 2 <= size <= 0x8000_0000 && |es| >= 2 && i < |es| && es[i].weight >= 2
    requires forall k :: 0 <= k < i ==> es[k].weight == 0
    ensures var x := Slot(Permutation(es[i].hash, size, murmur), size, 1); OwnerRing(es, size, murmur)[x] == i
  {
    var p, paths, turns := Permutation(es[i].hash, size, murmur), Paths(es, size, murmur), Schedule(Weights(es), size);
    ZeroPrefix(Weights(es), i);
    FirstRoundOwner(Weights(es), i, 0);
    FirstRoundOwner(Weights(es), i, 1);
    TwoSlots(p, size);
    hide Schedule, Owner, Prefix, Slot, Permutation, Fill;
    SecondTurn(paths, turns, size, i);
    OwnerStays(paths, turns, size, 2, size, paths[i][1]);
  }

  lemma TwoSlots(p: Probe, size: nat)
    requires 2 <= size <= 0x8000_0000 && InRange(p, size)
    ensures Slot(p, size, 0) == p.offset && Slot(p, size, 1) == (p.offset + p.skip) % size != p.offset
  {
    hide Slot;
    NoStep(p, size);
    OneStep(p, size);
    var x := p.offset + p.skip;
    if x < size {
      DivModUnique(x, size, 0, x);
    } else {
      DivModUnique(x, size, 1, x - size);
    }
  }

  lemma SlotOf(x: nat, size: nat)
    requires size > 0 && x < U32
    ensures x % U32 % size == x % size && (x < size ==> x % size == x)
  {
    if x < size { DivModUnique(x, size, 0, x); }
  }

  lemma NoStep(p: Probe, size: nat)
    requires size > 0 && p.offset < size <= U32
    ensures Slot(p, size, 0) == p.offset
  {
    SlotOf(p.offset, size);
  }

  lemma OneStep(p: Probe, size: nat)
    requires size > 0 && p.offset + p.skip < U32
    ensures Slot(p, size, 1) == (p.offset + p.skip) % size
  {
    SlotOf(p.offset + p.skip, size);
  }

  lemma SecondTurn(paths: seq<Path>, turns: seq<nat>, size: nat, i: nat)
    requires ValidPaths(paths, size) && ValidTurns(turns, |paths|) && |turns| >= 2 && i < |paths|
    requires turns[0] == i && turns[1] == i && paths[i][0] != paths[i][1]
    ensures Fill(paths, turns, size, 2)[paths[i][1]] == i
  {
    FirstTurn(paths, turns, size);
    var ring, path := Fill(paths, turns, size, 1), paths[i];
    assert Fill(paths, turns, size, 2) == TakeTurn(ring, path, i);
    hide Fill;
    assert FirstFree(ring, path, 0) == FirstFree(ring, path, 1) == 1;
  }

  /** Every endpoint's skip passes the check of `Probing.SafeSkip`. */
  ghost predicate SafeEndpoints(es: seq<Endpoint>, size: nat, murmur: Murmur)
    requires size >= 2
  {
    forall i :: 0 <= i < |es| ==> SafeSkip(Permutation(es[i].hash, size, murmur), size)
  }

  /** The construction ends: no turn searches forever. */
  ghost predicate Ends(es: seq<Endpoint>, size: nat, murmur: Murmur)
    requires |es| >= 2 ==> size >= 2
  {
    |es| >= 2 ==> EveryTurnFinds(Paths(es, size, murmur), Schedule(Weights(es), size), size)
  }

  /** Safe skips make the construction end. */
  lemma SafeEndpointsEnd(es: seq<Endpoint>, size: nat, murmur: Murmur)
    requires |es| >= 2 ==> size >= 2 && SafeEndpoints(es, size, murmur)
    ensures Ends(es, size, murmur)
  {
    if |es| >= 2 {
      SafeEndpointsCover(es, size, murmur);
      hide Schedule, Paths, AllCover, EveryTurnFinds, SafeEndpoints;
      CoveringFinds(Paths(es, size, murmur), Schedule(Weights(es), size), size);
    }
  }

  lemma SafeEndpointsCover(es: seq<Endpoint>, size: nat, murmur: Murmur)
    requires size >= 2 && SafeEndpoints(es, size, murmur)
    ensures AllCover(Paths(es, size, murmur), size)
  {
    var paths := Paths(es, size, murmur);
    forall i | 0 <= i < |paths| ensures CoveringPath(paths[i], size) {
      var p := Permutation(es[i].hash, size, murmur);
      SafeSkipCovers(p, size);
      PathCovers(p, size);
    }
  }

  // ---------------------------------------------------------------------
  // What the ring promises
  // ---------------------------------------------------------------------

  /** Every slot of the ring is owned by one of the endpoints. */
  lemma RingIsFull(es: seq<Endpoint>, size: nat, murmur: Murmur)
    requires |es| >= 1 && (|es| >= 2 ==> size >= 2) && Ends(es, size, murmur)
    ensures forall k :: 0 <= k < size ==> 0 <= OwnerRing(es, size, murmur)[k] < |es|
  {
    hide Paths, Schedule, Fill, EveryTurnFinds;
    if |es| >= 2 {
      var paths, turns := Paths(es, size, murmur), Schedule(Weights(es), size);
      FillCounts(paths, turns, size, size, -1);
      FillRange(paths, turns, size, size);
      var r := Fill(paths, turns, size, size);
      assert -1 !in multiset(r);
      assert forall k :: 0 <= k < size ==> r[k] in multiset(r);
    }
  }

  /** Every position of the ring holds the number of an endpoint. */
  lemma RingNumber(es: seq<Endpoint>, size: nat, murmur: Murmur, pos: nat) returns (o: nat)
    requires |es| >= 1 && (|es| >= 2 ==> size >= 2) && Ends(es, size, murmur) && pos < size
    ensures o < |es| && MaglevRing(es, size, murmur)[pos] == es[o].num
  {
    hide OwnerRing, Ends;
    RingIsFull(es, size, murmur);
    o := OwnerRing(es, size, murmur)[pos];
  }

  /** Exact share of every endpoint. */
  lemma RingShares(es: seq<Endpoint>, size: nat, murmur: Murmur, i: nat)
    requires size >= 2 && |es| >= 2 && i < |es| && Ends(es, size, murmur)
    ensures multiset(OwnerRing(es, size, murmur))[i] == Share(Weights(es), size, i)
  {
    hide Paths, Schedule, Fill, EveryTurnFinds, Share;
    var turns := Schedule(Weights(es), size);
    FillCounts(Paths(es, size, murmur), turns, size, size, i);
    assert turns[..size] == turns;
    ScheduleShares(Weights(es), size, i);
  }

  /** With distinct numbers the slots labelled with an endpoint's number are the slots it owns. */
  lemma {:induction false} LabelCounts(es: seq<Endpoint>, owners: seq<int>, i: nat)
    requires i < |es| && forall k :: 0 <= k < |owners| ==> 0 <= owners[k] < |es|
    requires forall a, b :: 0 <= a < b < |es| ==> es[a].num != es[b].num
    ensures multiset(Labels(es, owners))[es[i].num] == multiset(owners)[i]
  {
    if owners != [] {
      var rest, o := owners[..|owners| - 1], owners[|owners| - 1];
      LabelCounts(es, rest, i);
      assert owners == rest + [o];
      assert Labels(es, owners) == Labels(es, rest) + [es[o].num];
      assert es[o].num == es[i].num <==> o == i;
    }
  }

  /** The number of ring positions that hold each endpoint's number. */
  lemma NumberShares(es: seq<Endpoint>, size: nat, murmur: Murmur, i: nat)
    requires size >= 2 && |es| >= 2 && i < |es| && Ends(es, size, murmur)
    requires forall a, b :: 0 <= a < b < |es| ==> es[a].num != es[b].num
    ensures multiset(MaglevRing(es, size, murmur))[es[i].num] == Share(Weights(es), size, i)
  {
    RingShares(es, size, murmur, i);
    RingIsFull(es, size, murmur);
    LabelCounts(es, OwnerRing(es, size, murmur), i);
  }

  /** Equal weights of 1 differ by at most one slot, as the paper promises. */
  lemma EqualWeightsBalance(es: seq<Endpoint>, size: nat, murmur: Murmur, i: nat, j: nat)
    requires size >= 2 && 2 <= |es| && i < |es| && j < |es| && Ends(es, size, murmur)
    requires forall k :: 0 <= k < |es| ==> es[k].weight == 1
    ensures multiset(OwnerRing(es, size, murmur))[i] <= multiset(OwnerRing(es, size, murmur))[j] + 1
  {
    RingShares(es, size, murmur, i);
    RingShares(es, size, murmur, j);
    UnitPrefix(Weights(es), i);
    UnitPrefix(Weights(es), j);
    UnitPrefix(Weights(es), |es|);
  }

  lemma {:induction false} UnitPrefix(ws: seq<nat>, i: nat)
    requires i <= |ws| && forall k :: 0 <= k < |ws| ==> ws[k] == 1
    ensures Prefix(ws, i) == i
  {
    if i > 0 {
      UnitPrefix(ws, i - 1);
    }
  }

  /** Two endpoint lists that differ only in their numbers own the same slots. */
  lemma OwnersIgnoreNumbers(es: seq<Endpoint>, fs: seq<Endpoint>, size: nat, murmur: Murmur)
    requires size >= 2 && |es| == |fs|
    requires forall i :: 0 <= i < |es| ==> es[i].weight == fs[i].weight && es[i].hash == fs[i].hash
    ensures OwnerRing(es, size, murmur) == OwnerRing(fs, size, murmur)
  {
    assert Weights(es) == Weights(fs);
    assert Paths(es, size, murmur) == Paths(fs, size, murmur);
  }

  // ---------------------------------------------------------------------
  // The program
  // ---------------------------------------------------------------------

  /** Fills the two cells of `permutation` that belong to the endpoint at `pos`. */
  method GenMaglevPermutation(permutation: array<nat>, endpoint: Endpoint, pos: nat, size: nat, murmur: Murmur)
    requires size >= 2 && 2 * pos + 1 < permutation.Length
    modifies permutation
    ensures permutation[2 * pos] == Permutation(endpoint.hash, size, murmur).offset
    ensures permutation[2 * pos + 1] == Permutation(endpoint.hash, size, murmur).skip
    ensures forall k :: 0 <= k < permutation.Length && k != 2 * pos && k != 2 * pos + 1 ==>
              permutation[k] == old(permutation[k])
  {
    var offsetHash := murmur(endpoint.hash, HASH_SEED_2, HASH_SEED_0);
    var offset := offsetHash % size;
    var skipHash := murmur(endpoint.hash, HASH_SEED_3, HASH_SEED_1);
    var skip := skipHash % (size - 1) + 1;
    permutation[2 * pos] := offset;
    permutation[2 * pos + 1] := skip;
  }

  /** Probes before `next` are known to be occupied, so the search may start there. */
  ghost predicate Skipped(ring: seq<int>, path: Path, next: nat)
    requires ValidPath(path, |ring|) && next <= |path|
  {
    forall m: nat :: m < next ==> ring[path[m]] >= 0
  }

  /** A prime ring whose products fit, probed in range. */
  ghost predicate FewProbes(p: Probe, size: nat) {
    IsPrime(size) && InRange(p, size) && size * (size - 1) < U32
  }

  /** There a free slot is found within as many probes as the ring has slots. */
  lemma FreeSoon(ring: seq<int>, p: Probe)
    requires |ring| > 0
    ensures FewProbes(p, |ring|) && FirstFree(ring, PathOf(p, |ring|), 0) < U32 ==>
              FirstFree(ring, PathOf(p, |ring|), 0) < |ring|
  {
    var path := PathOf(p, |ring|);
    var n := FirstFree(ring, path, 0);
    if FewProbes(p, |ring|) && n < U32 {
      ProbeIsPermutation(p, |ring|);
      hide FirstFree, IsPrime;
      assert Reaches(p, |ring|, |ring|, path[n]);
      var m: nat :| m < |ring| && Slot(p, |ring|, m) == path[n];
      MulAtLeast(|ring|, |ring| - 1);
      assert path[m] == path[n];
    }
  }

  /** One turn: search from the remembered position and claim the slot found. */
  method ClaimSlot(result: array<int>, offset: nat, skip: nat, start: nat, num: nat,
                   ghost path: Path, ghost es: seq<Endpoint>, ghost owners: seq<int>, ghost i: nat)
    returns (n: nat)
    requires result.Length > 0 && path == PathOf(Probe(offset, skip), result.Length)
    requires i < |es| && num == es[i].num && start < U32
    requires |owners| == result.Length && result[..] == Labels(es, owners)
    requires forall k :: 0 <= k < |owners| ==> -1 <= owners[k] < |es|
    requires Skipped(owners, path, start)
    requires FirstFree(owners, path, 0) < U32
    modifies result
    ensures n == FirstFree(owners, path, 0)
    ensures FewProbes(Probe(offset, skip), result.Length) ==> n < result.Length
    ensures result[..] == Labels(es, TakeTurn(owners, path, i))
  {
    hide PathOf, Slot, Labels, FewProbes, FirstFree;
    ghost var goal := FirstFree(owners, path, 0);
    n := start;
    var cur := ProbeSlot(offset, skip, result.Length, n);
    while result[cur] >= 0
      invariant start <= n <= goal && cur == path[n]
      invariant result[..] == Labels(es, owners)
      decreases goal - n
    {
      assert result[..][cur] == Label(es, owners[cur]);
      n := (n + 1) % U32;
      cur := ProbeSlot(offset, skip, result.Length, n);
    }
    assert result[..][cur] == Label(es, owners[cur]);
    result[cur] := num;
    assert result[..] == Labels(es, owners[cur := i]);
    FreeSoon(owners, Probe(offset, skip));
  }

  /** Turn number when endpoint `i` is about to take its `j`-th turn of `round`. */
  ghost function Clock(ws: seq<nat>, round: nat, i: nat, j: nat): nat
    requires i <= |ws|
  {
    if round == 0 then Prefix(ws, i) + j else Prefix(ws, |ws|) + |ws| * (round - 1) + i + j
  }

  ghost function RoundWeight(ws: seq<nat>, round: nat, i: nat, k: nat): nat
    requires k < |ws|
  {
    if round > 0 || k < i then 1 else ws[k]
  }

  lemma ClockOwner(ws: seq<nat>, round: nat, i: nat, j: nat)
    requires i < |ws| && j < RoundWeight(ws, round, i, i)
    ensures Owner(ws, Clock(ws, round, i, j)) == i
  {
    if round == 0 {
      FirstRoundOwner(ws, i, Prefix(ws, i) + j);
    } else {
      LaterRoundOwner(ws, round - 1, i);
    }
  }

  lemma ClockAdvances(ws: seq<nat>, round: nat, i: nat)
    ensures i < |ws| ==>
      Clock(ws, round, i, RoundWeight(ws, round, i, i)) == Clock(ws, round, i + 1, 0)
    ensures Clock(ws, round, |ws|, 0) == Clock(ws, round + 1, 0, 0)
  {
  }

  /** What the fill loops know before turn `runs`. */
  ghost predicate Filling(es: seq<Endpoint>, paths: seq<Path>, turns: seq<nat>, size: nat, runs: nat,
                          next: seq<nat>, ring: seq<int>)
  {
    && |paths| == |es| == |next|
    && runs < size == |turns|
    && ValidPaths(paths, size) && ValidTurns(turns, |paths|)
    && EveryTurnFinds(paths, turns, size)
    && ring == Labels(es, Fill(paths, turns, size, runs))
    && Remembered(Fill(paths, turns, size, runs), paths, next)
  }

  lemma FillingStart(es: seq<Endpoint>, paths: seq<Path>, turns: seq<nat>, next: seq<nat>)
    requires |paths| == |es| == |next| && |turns| > 0
    requires ValidPaths(paths, |turns|) && ValidTurns(turns, |paths|)
    requires EveryTurnFinds(paths, turns, |turns|)
    requires forall k :: 0 <= k < |next| ==> next[k] == 0
    ensures Filling(es, paths, turns, |turns|, 0, next, EmptyRing(|turns|))
  {
  }

  lemma FillingAfterTurn(es: seq<Endpoint>, paths: seq<Path>, turns: seq<nat>, size: nat, runs: nat,
                         next: seq<nat>, ring: seq<int>, n: nat)
    requires Filling(es, paths, turns, size, runs, next, ring) && runs + 1 < size
    requires n == FirstFree(Fill(paths, turns, size, runs), paths[turns[runs]], 0)
    ensures Filling(es, paths, turns, size, runs + 1, next[turns[runs] := (n + 1) % U32],
                    Labels(es, Fill(paths, turns, size, runs + 1)))
  {
    hide EveryTurnFinds, Fill, TakeTurn, FirstFree, Finds, Labels, Remembered;
    var owners, i := Fill(paths, turns, size, runs), turns[runs];
    FillNext(paths, turns, size, runs);
    NextAfterTurn(owners, paths, i, next, n);
  }

  /** One more turn, which finds a slot. */
  lemma FillNext(paths: seq<Path>, turns: seq<nat>, size: nat, t: nat)
    requires ValidPaths(paths, size) && ValidTurns(turns, |paths|) && EveryTurnFinds(paths, turns, size) && t < |turns|
    ensures Finds(Fill(paths, turns, size, t), paths[turns[t]])
    ensures Fill(paths, turns, size, t + 1) == TakeTurn(Fill(paths, turns, size, t), paths[turns[t]], turns[t])
  {
    hide TakeTurn, Finds;
  }

  ghost predicate Remembered(ring: seq<int>, paths: seq<Path>, next: seq<nat>)
    requires ValidPaths(paths, |ring|) && |next| == |paths|
  {
    forall k :: 0 <= k < |paths| ==> next[k] < U32 && Skipped(ring, paths[k], next[k])
  }

  lemma NextAfterTurn(ring: seq<int>, paths: seq<Path>, i: nat, next: seq<nat>, n: nat)
    requires ValidPaths(paths, |ring|) && |next| == |paths| && i < |paths| && Remembered(ring, paths, next)
    requires Finds(ring, paths[i]) && n == FirstFree(ring, paths[i], 0)
    ensures Remembered(TakeTurn(ring, paths[i], i), paths, next[i := (n + 1) % U32])
  {
    var after, next' := TakeTurn(ring, paths[i], i), next[i := (n + 1) % U32];
    TurnSkips(ring, paths[i], i);
    assert n < U32;
    assert Skipped(after, paths[i], next'[i]);
    hide TakeTurn, FirstFree, Finds, Skipped;
    forall k | 0 <= k < |paths| ensures next'[k] < U32 && Skipped(after, paths[k], next'[k]) {
      TurnKeepsSkipped(ring, paths[i], i, paths[k], next[k]);
    }
  }

  /** What was found occupied stays occupied. */
  lemma TurnKeepsSkipped(ring: seq<int>, path: Path, i: nat, other: Path, next: nat)
    requires ValidPath(path, |ring|) && ValidPath(other, |ring|)
    requires next <= U32 && Skipped(ring, other, next)
    ensures Skipped(TakeTurn(ring, path, i), other, next)
  {
    hide FirstFree;
    var after := TakeTurn(ring, path, i);
    assert forall x :: 0 <= x < |ring| && ring[x] >= 0 ==> after[x] >= 0;
  }

  /** After a turn everything up to the slot just claimed is occupied. */
  lemma TurnSkips(ring: seq<int>, path: Path, i: nat)
    requires ValidPath(path, |ring|) && Finds(ring, path)
    ensures Skipped(TakeTurn(ring, path, i), path, FirstFree(ring, path, 0) + 1)
  {
    hide FirstFree;
    var n, after := FirstFree(ring, path, 0), TakeTurn(ring, path, i);
    assert forall x :: 0 <= x < |ring| && ring[x] >= 0 ==> after[x] >= 0;
    assert after[path[n]] == i;
  }

  method FillTurn(result: array<int>, es: seq<Endpoint>, ghost paths: seq<Path>, ghost turns: seq<nat>,
                  i: nat, offset: nat, skip: nat, next: seq<nat>, runs: nat)
    returns (next': seq<nat>)
    requires Filling(es, paths, turns, result.Length, runs, next, result[..])
    requires i < |es| && turns[runs] == i
    requires paths[i] == PathOf(Probe(offset, skip), result.Length)
    modifies result
    ensures result[..] == Labels(es, Fill(paths, turns, result.Length, runs + 1))
    ensures runs + 1 < result.Length ==> Filling(es, paths, turns, result.Length, runs + 1, next', result[..])
  {
    ghost var owners, before := Fill(paths, turns, result.Length, runs), result[..];
    FillRange(paths, turns, result.Length, runs);
    assert Finds(owners, paths[i]);
    hide EveryTurnFinds;
    var n := ClaimSlot(result, offset, skip, next[i], es[i].num, paths[i], es, owners, i);
    next' := next[i := (n + 1) % U32];
    if runs + 1 < result.Length {
      FillingAfterTurn(es, paths, turns, result.Length, runs, next, before, n);
    }
  }

  /** The loop over one endpoint's weight; stops early when the ring is full. */
  method FillEndpoint(result: array<int>, es: seq<Endpoint>, ghost paths: seq<Path>, ghost turns: seq<nat>,
                      i: nat, offset: nat, skip: nat, weight: nat, next0: seq<nat>, runs0: nat)
    returns (full: bool, next: seq<nat>, runs: nat)
    requires Filling(es, paths, turns, result.Length, runs0, next0, result[..])
    requires i < |es| && paths[i] == PathOf(Probe(offset, skip), result.Length)
    requires forall t :: runs0 <= t < runs0 + weight && t < |turns| ==> turns[t] == i
    modifies result
    ensures full ==> result[..] == Labels(es, Fill(paths, turns, result.Length, result.Length))
    ensures !full ==> Filling(es, paths, turns, result.Length, runs, next, result[..])
    ensures !full ==> runs == runs0 + weight
  {
    hide PathOf, Fill, Labels, Skipped, EveryTurnFinds, ValidPaths;
    next, runs := next0, runs0;
    for j := 0 to weight
      invariant runs == runs0 + j
      invariant Filling(es, paths, turns, result.Length, runs, next, result[..])
    {
      next := FillTurn(result, es, paths, turns, i, offset, skip, next, runs);
      runs := runs + 1;
      if runs == result.Length {
        return true, next, runs;
      }
    }
    full := false;
  }

  lemma ClockShift(ws: seq<nat>, round: nat, i: nat, j: nat)
    requires i <= |ws|
    ensures Clock(ws, round, i, j) == Clock(ws, round, i, 0) + j
  {
  }

  /** The turns of one endpoint in one round are consecutive turns of the schedule. */
  lemma ScheduledTurns(ws: seq<nat>, turns: seq<nat>, round: nat, i: nat, runs: nat)
    requires i < |ws| && turns == Schedule(ws, |turns|) && runs == Clock(ws, round, i, 0)
    ensures forall t :: runs <= t < runs + RoundWeight(ws, round, i, i) && t < |turns| ==> turns[t] == i
  {
    hide Owner, Prefix, Schedule;
    forall t | runs <= t < runs + RoundWeight(ws, round, i, i) && t < |turns| ensures turns[t] == i {
      ClockOwner(ws, round, i, t - runs);
      ClockShift(ws, round, i, t - runs);
    }
  }

  /** One pass over all the endpoints. */
  method FillRound(result: array<int>, es: seq<Endpoint>, ghost paths: seq<Path>, ghost turns: seq<nat>,
                   permutation: seq<nat>, weights0: seq<nat>, next0: seq<nat>, runs0: nat, ghost round: nat)
    returns (full: bool, weights: seq<nat>, next: seq<nat>, runs: nat)
    requires |es| > 0
    requires Filling(es, paths, turns, result.Length, runs0, next0, result[..])
    requires turns == Schedule(Weights(es), |turns|) && |permutation| == 2 * |es|
    requires forall k :: 0 <= k < |es| ==>
      paths[k] == PathOf(Probe(permutation[2 * k], permutation[2 * k + 1]), result.Length)
    requires |weights0| == |es| && runs0 == Clock(Weights(es), round, 0, 0)
    requires forall k :: 0 <= k < |es| ==> weights0[k] == RoundWeight(Weights(es), round, 0, k)
    modifies result
    ensures full ==> result[..] == Labels(es, Fill(paths, turns, result.Length, result.Length))
    ensures !full ==> Filling(es, paths, turns, result.Length, runs, next, result[..])
    ensures !full ==> runs == Clock(Weights(es), round + 1, 0, 0)
    ensures !full ==> |weights| == |es| && forall k :: 0 <= k < |es| ==> weights[k] == 1
  {
    hide PathOf, Fill, Labels, Skipped, EveryTurnFinds, ValidPaths, Prefix, Schedule, Owner;
    full, weights, next, runs := false, weights0, next0, runs0;
    for i := 0 to |es|
      invariant runs == Clock(Weights(es), round, i, 0) && |weights| == |es|
      invariant forall k :: 0 <= k < |es| ==> weights[k] == RoundWeight(Weights(es), round, i, k)
      invariant Filling(es, paths, turns, result.Length, runs, next, result[..])
    {
      ScheduledTurns(Weights(es), turns, round, i, runs);
      full, next, runs := FillEndpoint(result, es, paths, turns, i, permutation[2 * i], permutation[2 * i + 1],
                                       weights[i], next, runs);
      if full {
        return;
      }
      ClockAdvances(Weights(es), round, i);
      weights := weights[i := 1];
    }
    full := false;
    ClockAdvances(Weights(es), round, |es|);
  }

  method BuildPermutation(endpoints: seq<Endpoint>, size: nat, murmur: Murmur) returns (permutation: seq<nat>)
    requires size >= 2
    ensures |permutation| == 2 * |endpoints|
    ensures forall k :: 0 <= k < |endpoints| ==>
      Probe(permutation[2 * k], permutation[2 * k + 1]) == Permutation(endpoints[k].hash, size, murmur)
  {
    var cells := new nat[2 * |endpoints|](_ => 0);
    for i := 0 to |endpoints|
      invariant forall k :: 0 <= k < i ==>
        Probe(cells[2 * k], cells[2 * k + 1]) == Permutation(endpoints[k].hash, size, murmur)
    {
      GenMaglevPermutation(cells, endpoints[i], i, size, murmur);
    }
    permutation := cells[..];
  }

  lemma RoundLength(ws: seq<nat>, round: nat)
    requires round > 0
    ensures Clock(ws, round + 1, 0, 0) == Clock(ws, round, 0, 0) + |ws|
  {
  }

  /** The endless loop over rounds, for two or more endpoints. */
  method FillRing(endpoints: seq<Endpoint>, size: nat, murmur: Murmur) returns (ring: seq<int>)
    requires size >= 2 && |endpoints| >= 2 && Ends(endpoints, size, murmur)
    ensures ring == MaglevRing(endpoints, size, murmur)
  {
    hide PathOf, Fill, Skipped, EveryTurnFinds, Schedule, Owner;
    var result := new int[size](_ => -1);
    var permutation := BuildPermutation(endpoints, size, murmur);
    var runs, next, weights := 0, seq(|endpoints|, _ => 0), Weights(endpoints);
    ghost var paths, ws := Paths(endpoints, size, murmur), Weights(endpoints);
    ghost var turns := Schedule(ws, size);
    assert result[..] == EmptyRing(size);
    FillingStart(endpoints, paths, turns, next);
    ghost var round := 0;
    while true
      invariant runs == Clock(ws, round, 0, 0) && |weights| == |ws|
      invariant forall k :: 0 <= k < |ws| ==> weights[k] == RoundWeight(ws, round, 0, k)
      invariant Filling(endpoints, paths, turns, size, runs, next, result[..])
      decreases if round == 0 then 1 else 0, size - runs
    {
      var full;
      full, weights, next, runs := FillRound(
        result, endpoints, paths, turns, permutation, weights, next, runs, round);
      if full {
        return result[..];
      }
      if round > 0 { RoundLength(ws, round); }
      round := round + 1;
    }
  }

  /** Builds the ring; terminates and returns the specified ring whenever no turn searches forever. */
  method GenerateMaglevHash(endpoints: seq<Endpoint>, size: nat, murmur: Murmur) returns (ring: seq<int>)
    requires size < U32 && (|endpoints| >= 2 ==> size >= 2)
    requires forall i :: 0 <= i < |endpoints| ==> endpoints[i].num < I32
    requires Ends(endpoints, size, murmur)
    ensures ring == MaglevRing(endpoints, size, murmur)
  {
    if |endpoints| == 0 {
      ring := EmptyRing(size);
    } else if |endpoints| == 1 {
      var result := new int[size](_ => -1);
      for k := 0 to size
        invariant forall m :: 0 <= m < k ==> result[m] == endpoints[0].num
      {
        result[k] := endpoints[0].num;
      }
      ring := result[..];
    } else {
      ring := FillRing(endpoints, size, murmur);
    }
  }
}
