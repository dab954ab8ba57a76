/**
 Where the reference counts go wrong, and exactly when: repeated addresses in one deletion
 batch, brand-new addresses repeated in one addition batch, and source prefixes set twice.
 */
module RefLeaks {
  import opened Options
  import opened Residues
  import opened Vips
  import opened Allocator
  import opened ControlPlane
  import opened RefSafety

  /** How often an address occurs in a batch. */
  ghost function Times(c: Config, rs: seq<NewReal>, a: Addr): nat {
    if rs == [] then 0 else
      Times(c, rs[..|rs| - 1], a) + if c.parse(rs[|rs| - 1].address) == Some(a) then 1 else 0
  }

  function Monus(x: nat, y: nat): nat {
    if x <= y then 0 else x - y
  }

  /** Count on number `n` after a deletion batch: one release per occurrence, until none is left. */
  ghost function CountAfterDel(c: Config, p: Pool, cur: set<nat>, rs: seq<NewReal>, n: nat): nat {
    if n in p.names && n in cur then Monus(RefCount(p, n), Times(c, rs, p.names[n])) else RefCount(p, n)
  }

  ghost function DelWork(c: Config, p: Pool, cur: set<nat>, rs: seq<NewReal>): Work {
    DoReals(c, Del, Work(p, cur, []), rs)
  }

  /** A pool that only lost reals. */
  ghost predicate Shrunk(p: Pool, q: Pool) {
    && PoolOk(q)
    && (forall n: nat :: n in q.names ==> n in p.names && q.names[n] == p.names[n])
    && (forall n: nat :: n in p.names && RefCount(q, n) > 0 ==> n in q.names)
  }

  lemma DelOneCounts(c: Config, p: Pool, w: Work, r: NewReal, a: Addr)
    requires PoolOk(p) && Shrunk(p, w.pool) && c.parse(r.address) == Some(a)
    ensures var w' := DelOne(c, w, r);
      && Shrunk(p, w'.pool) && w'.cur == w.cur
      && forall n: nat :: RefCount(w'.pool, n) ==
           if n in p.names && p.names[n] == a && n in w.cur then Monus(RefCount(w.pool, n), 1)
           else RefCount(w.pool, n)
  {
    var w' := DelOne(c, w, r);
    forall n: nat
      ensures RefCount(w'.pool, n) ==
        if n in p.names && p.names[n] == a && n in w.cur then Monus(RefCount(w.pool, n), 1) else RefCount(w.pool, n)
    {
      DelOneCount(c, p, w, r, a, n);
    }
    ReleaseShrunk(p, w.pool, a);
    hide Release, PoolOk, Shrunk, RefCount;
  }

  lemma ReleaseShrunk(p: Pool, q: Pool, a: Addr)
    requires Shrunk(p, q)
    ensures Shrunk(p, Release(q, a))
  {
    ReleaseCounts(q, a);
    hide Release, PoolOk;
  }

  lemma DelOneCount(c: Config, p: Pool, w: Work, r: NewReal, a: Addr, n: nat)
    requires PoolOk(p) && Shrunk(p, w.pool) && c.parse(r.address) == Some(a)
    ensures RefCount(DelOne(c, w, r).pool, n) ==
      if n in p.names && p.names[n] == a && n in w.cur then Monus(RefCount(w.pool, n), 1) else RefCount(w.pool, n)
  {
    ReleaseCounts(w.pool, a);
    if a in w.pool.reals {
      NumberIsNamed(w.pool, a);
    }
    if n in p.names && p.names[n] == a {
      assert p.reals[a].num == n;
      assert RefCount(w.pool, n) > 0 ==> n in w.pool.names;
    }
    hide Release;
  }

  lemma CountNext(c: Config, p: Pool, cur: set<nat>, front: seq<NewReal>, r: NewReal, n: nat)
    ensures CountAfterDel(c, p, cur, front + [r], n) ==
      if n in p.names && c.parse(r.address) == Some(p.names[n]) && n in cur then
        Monus(CountAfterDel(c, p, cur, front, n), 1)
      else CountAfterDel(c, p, cur, front, n)
  {
    assert (front + [r])[..|front|] == front;
    hide RefCount;
  }

  lemma DelWorkNext(c: Config, p: Pool, cur: set<nat>, front: seq<NewReal>, r: NewReal)
    ensures DelWork(c, p, cur, front + [r]) == DelOne(c, DelWork(c, p, cur, front), r)
  {
    assert (front + [r])[..|front|] == front;
  }

  /** Closed form of the counts after any deletion batch, repetitions included. */
  lemma {:induction false} DelCounts(c: Config, p: Pool, cur: set<nat>, rs: seq<NewReal>)
    requires PoolOk(p)
    ensures Shrunk(p, DelWork(c, p, cur, rs).pool) && DelWork(c, p, cur, rs).cur == cur
    ensures forall n: nat :: RefCount(DelWork(c, p, cur, rs).pool, n) == CountAfterDel(c, p, cur, rs, n)
  {
    if rs != [] {
      hide DelWork, DelOne, Shrunk, PoolOk, RefCount, CountAfterDel, Times;
      var front, r := rs[..|rs| - 1], rs[|rs| - 1];
      assert rs == front + [r];
      DelCounts(c, p, cur, front);
      DelWorkNext(c, p, cur, front, r);
      var w := DelWork(c, p, cur, front);
      forall n: nat ensures RefCount(DelOne(c, w, r).pool, n) == CountAfterDel(c, p, cur, rs, n) {
        CountNext(c, p, cur, front, r, n);
        if c.parse(r.address).Some? {
          DelOneCounts(c, p, w, r, c.parse(r.address).value);
        } else {
          DelInvalid(c, w, r);
        }
      }
      if c.parse(r.address).Some? {
        DelOneCounts(c, p, w, r, c.parse(r.address).value);
      } else {
        DelInvalid(c, w, r);
      }
    }
  }

  lemma DelInvalid(c: Config, w: Work, r: NewReal)
    requires c.parse(r.address).None?
    ensures DelOne(c, w, r) == w
  {
  }

  /** A deletion takes the number away from the VIP unless the batch has done so before. */
  lemma DelFinds(c: Config, p: Pool, v: VipState, front: seq<NewReal>, n: nat, a: Addr)
    requires PoolOk(p) && n in p.names && p.names[n] == a && n in v.reals
    ensures var w := DelWork(c, p, v.reals.Keys, front);
      Times(c, front, a) == 0 ==> a in w.pool.reals && w.pool.reals[a].num == n && n in w.cur
  {
    DelCounts(c, p, v.reals.Keys, front);
    var w := DelWork(c, p, v.reals.Keys, front);
    hide DelWork, Times;
    assert RefCount(p, n) >= 1;
    assert RefCount(w.pool, n) == CountAfterDel(c, p, v.reals.Keys, front, n);
  }

  lemma DelNumber(c: Config, p: Pool, v: VipState, front: seq<NewReal>, a: Addr)
    requires PoolOk(p)
    ensures var w := DelWork(c, p, v.reals.Keys, front);
      w.cur == v.reals.Keys
      && (a in w.pool.reals ==> w.pool.reals[a].num in p.names && p.names[w.pool.reals[a].num] == a)
  {
    DelCounts(c, p, v.reals.Keys, front);
    var w := DelWork(c, p, v.reals.Keys, front);
    hide DelWork, Times, CountAfterDel;
    if a in w.pool.reals {
      NumberIsNamed(w.pool, a);
    }
  }

  /** The reals a VIP still holds after a deletion batch. */
  lemma {:induction false} DelHeld(c: Config, p: Pool, v: VipState, rs: seq<NewReal>, n: nat)
    requires PoolOk(p)
    ensures n in Held(v, DelWork(c, p, v.reals.Keys, rs)) <==>
            n in v.reals && !(n in p.names && Times(c, rs, p.names[n]) >= 1)
  {
    if rs != [] {
      var front, r := rs[..|rs| - 1], rs[|rs| - 1];
      assert rs == front + [r];
      DelHeld(c, p, v, front, n);
      hide DelWork, PoolOk, Held, Times;
      DelHeldNext(c, p, v, front, r, n);
    }
  }

  lemma DelHeldNext(c: Config, p: Pool, v: VipState, front: seq<NewReal>, r: NewReal, n: nat)
    requires PoolOk(p)
    requires n in Held(v, DelWork(c, p, v.reals.Keys, front)) <==>
             n in v.reals && !(n in p.names && Times(c, front, p.names[n]) >= 1)
    ensures n in Held(v, DelWork(c, p, v.reals.Keys, front + [r])) <==>
            n in v.reals && !(n in p.names && Times(c, front + [r], p.names[n]) >= 1)
  {
    hide DelWork, DelOne, PoolOk, Held, Times, Release;
    DelWorkNext(c, p, v.reals.Keys, front, r);
    var w := DelWork(c, p, v.reals.Keys, front);
    if n in p.names { TimesNext(c, front, r, p.names[n]); }
    if c.parse(r.address).Some? {
      var a := c.parse(r.address).value;
      DelOneSets(c, v, w, r, a);
      DelNumber(c, p, v, front, a);
      if n in p.names && p.names[n] == a && n in v.reals {
        DelFinds(c, p, v, front, n, a);
      }
    } else {
      DelInvalid(c, w, r);
    }
  }

  /** Every repeated address that the VIP holds has just this one reference. */
  ghost predicate RepeatsAreLast(c: Config, p: Pool, v: VipState, rs: seq<NewReal>) {
    forall n: nat :: n in v.reals && n in p.names && Times(c, rs, p.names[n]) >= 2 ==> RefCount(p, n) == 1
  }

  lemma DelBatchUsers(c: Config, b: Books, k: VipKey, v: VipState, rs: seq<NewReal>, n: nat)
    requires k in b.members && b.members[k] == v.reals.Keys && Covered(b)
    ensures var b' := WorkBooks(b, k, v, DelWork(c, b.pool, v.reals.Keys, rs));
      && |VipUsers(b'.members, n)| == |VipUsers(b.members, n)|
           - (if n in v.reals && n in b.pool.names && Times(c, rs, b.pool.names[n]) >= 1 then 1 else 0)
      && (RefCount(b'.pool, n) > 0 ==> QuicUsers(b', n) == QuicUsers(b, n))
      && (RefCount(b'.pool, n) == 0 ==> QuicUsers(b', n) == 0)
      && (RefCount(b.pool, n) == 0 ==> QuicUsers(b, n) == 0)
  {
    var w := DelWork(c, b.pool, v.reals.Keys, rs);
    DelCounts(c, b.pool, v.reals.Keys, rs);
    DelHeld(c, b.pool, v, rs, n);
    VipUsersUpdate(b.members, k, Held(v, w), n);
    assert PoolOk(w.pool);
  }

  lemma RepeatsAreLastSuffices(c: Config, b: Books, k: VipKey, v: VipState, rs: seq<NewReal>)
    requires k in b.members && b.members[k] == v.reals.Keys && Exact(b) && RepeatsAreLast(c, b.pool, v, rs)
    ensures Exact(WorkBooks(b, k, v, DelWork(c, b.pool, v.reals.Keys, rs)))
  {
    var w := DelWork(c, b.pool, v.reals.Keys, rs);
    var b' := WorkBooks(b, k, v, w);
    DelCounts(c, b.pool, v.reals.Keys, rs);
    hide DelWork, Held, Times, DoReals;
    forall n: nat ensures RefCount(b'.pool, n) == Users(b', n) {
      DelBatchUsers(c, b, k, v, rs, n);
      if n in v.reals {
        CoveredIsLive(b, k, n);
        assert k in VipUsers(b.members, n);
      }
      assert RefCount(b.pool, n) == Users(b, n);
      assert RefCount(b'.pool, n) == CountAfterDel(c, b.pool, v.reals.Keys, rs, n);
    }
    forall a | a in b.quic ensures a in b'.pool.reals {
      QuicSurvives(c, b, k, v, rs, a);
    }
  }

  lemma QuicSurvives(c: Config, b: Books, k: VipKey, v: VipState, rs: seq<NewReal>, a: Addr)
    requires k in b.members && b.members[k] == v.reals.Keys && Exact(b) && RepeatsAreLast(c, b.pool, v, rs)
    requires a in b.quic
    ensures a in DelWork(c, b.pool, v.reals.Keys, rs).pool.reals
  {
    var p, n := b.pool, b.pool.reals[a].num;
    var q := DelWork(c, p, v.reals.Keys, rs).pool;
    NumberIsNamed(p, a);
    DelCounts(c, p, v.reals.Keys, rs);
    hide DelWork, Times, DoReals;
    assert QuicUsers(b, n) == 1;
    if n in v.reals {
      assert k in VipUsers(b.members, n);
    }
    assert RefCount(p, n) == Users(b, n);
    assert RefCount(q, n) == CountAfterDel(c, p, v.reals.Keys, rs, n) > 0;
    assert q.names[n] == a;
  }

  lemma RepeatsAreLastNeeded(c: Config, b: Books, k: VipKey, v: VipState, rs: seq<NewReal>, n: nat)
    requires k in b.members && b.members[k] == v.reals.Keys && Exact(b)
    requires n in v.reals && n in b.pool.names && Times(c, rs, b.pool.names[n]) >= 2 && RefCount(b.pool, n) != 1
    ensures !Exact(WorkBooks(b, k, v, DelWork(c, b.pool, v.reals.Keys, rs)))
  {
    var p := b.pool;
    var w := DelWork(c, p, v.reals.Keys, rs);
    var b', a := WorkBooks(b, k, v, w), p.names[n];
    DelCounts(c, p, v.reals.Keys, rs);
    DelBatchUsers(c, b, k, v, rs, n);
    hide DelWork, Held, Times, DoReals;
    assert RefCount(p, n) == Users(b, n) >= 2;
    assert RefCount(w.pool, n) == CountAfterDel(c, p, v.reals.Keys, rs, n);
    if RefCount(w.pool, n) == 0 && a in b.quic {
      assert forall m: nat :: m in w.pool.names && w.pool.names[m] == a ==> m == n;
      assert n !in w.pool.names;
      assert a !in w.pool.reals;
    }
  }

  /**
   From exact counts, a deletion batch leaves exact counts if and only if every repeated
   address that the VIP holds had just one reference.
   */
  lemma DelBatchExactIff(c: Config, b: Books, k: VipKey, v: VipState, rs: seq<NewReal>)
    requires k in b.members && b.members[k] == v.reals.Keys && Exact(b)
    ensures Exact(WorkBooks(b, k, v, DelWork(c, b.pool, v.reals.Keys, rs)))
       <==> RepeatsAreLast(c, b.pool, v, rs)
  {
    if RepeatsAreLast(c, b.pool, v, rs) {
      RepeatsAreLastSuffices(c, b, k, v, rs);
    } else {
      var n: nat :| n in v.reals && n in b.pool.names && Times(c, rs, b.pool.names[n]) >= 2 && RefCount(b.pool, n) != 1;
      RepeatsAreLastNeeded(c, b, k, v, rs, n);
    }
  }

  /** The number of a real that another VIP still holds is free again once it was released often enough. */
  lemma RepeatedDeleteRecycles(c: Config, b: Books, k: VipKey, v: VipState, rs: seq<NewReal>, n: nat, j: VipKey)
    requires k in b.members && b.members[k] == v.reals.Keys && Exact(b) && n in v.reals
    requires j in b.members && j != k && n in b.members[j]
    ensures n in b.pool.names
    ensures var b' := WorkBooks(b, k, v, DelWork(c, b.pool, v.reals.Keys, rs));
      n in b'.members[j] && (n in b'.pool.free <==> Times(c, rs, b.pool.names[n]) >= RefCount(b.pool, n))
  {
    CoveredIsLive(b, k, n);
    DelCounts(c, b.pool, v.reals.Keys, rs);
    var q := DelWork(c, b.pool, v.reals.Keys, rs).pool;
    hide DelWork, Held, Times, DoReals;
    assert RefCount(q, n) == CountAfterDel(c, b.pool, v.reals.Keys, rs, n);
    assert n < b.pool.max;
    DelKeepsMax(c, b.pool, v.reals.Keys, rs);
    assert n in q.names <==> RefCount(q, n) > 0;
  }

  lemma {:induction false} DelKeepsMax(c: Config, p: Pool, cur: set<nat>, rs: seq<NewReal>)
    ensures DelWork(c, p, cur, rs).pool.max == p.max
  {
    if rs != [] {
      DelKeepsMax(c, p, cur, rs[..|rs| - 1]);
    }
  }

  // ---------------------------------------------------------------------
  // Repeated brand-new addresses in an addition batch
  // ---------------------------------------------------------------------

  ghost function AddWork(c: Config, p: Pool, cur: set<nat>, rs: seq<NewReal>): Work {
    DoReals(c, Add, Work(p, cur, []), rs)
  }

  /** The addresses of the batch that had no number and get one, in the order of the free numbers. */
  ghost function Numbered(c: Config, p: Pool, rs: seq<NewReal>): seq<Addr> {
    if rs == [] then [] else
      var f, x := Numbered(c, p, rs[..|rs| - 1]), c.parse(rs[|rs| - 1].address);
      if x.Some? && x.value !in p.reals && x.value !in f && |f| < |p.free| then f + [x.value] else f
  }

  ghost predicate InCur(c: Config, p: Pool, v: VipState, rs: seq<NewReal>, a: Addr) {
    if a in p.reals then p.reals[a].num in v.reals || Times(c, rs, a) >= 1 else Times(c, rs, a) >= 2
  }

  ghost predicate InHeld(c: Config, p: Pool, v: VipState, rs: seq<NewReal>, a: Addr) {
    (a in p.reals && p.reals[a].num in v.reals) || Times(c, rs, a) >= 1
  }

  /** The list holds addresses of the batch, and all new ones unless the numbers ran out. */
  ghost predicate Occurred(c: Config, p: Pool, rs: seq<NewReal>, f: seq<Addr>) {
    && (forall a :: a in f ==> a !in p.reals && Times(c, rs, a) >= 1)
    && (|f| < |p.free| ==> forall a :: a !in p.reals && Times(c, rs, a) >= 1 ==> a in f)
  }

  /** Closed form of what an addition batch does: numbers, `cur_reals` and the reals held. */
  ghost predicate Added(c: Config, p: Pool, v: VipState, rs: seq<NewReal>, f: seq<Addr>, w: Work) {
    NumbersGiven(c, p, rs, f, w) && SetsGrown(c, p, v, rs, w)
  }

  ghost predicate NumbersGiven(c: Config, p: Pool, rs: seq<NewReal>, f: seq<Addr>, w: Work) {
    && PoolOk(w.pool) && w.pool.max == p.max && |f| <= |p.free| && w.pool.free == p.free[|f|..]
    && (forall a :: a in w.pool.reals <==> a in p.reals || a in f)
    && Occurred(c, p, rs, f)
    && (forall a :: a in p.reals && a in w.pool.reals ==> w.pool.reals[a].num == p.reals[a].num)
  }

  ghost predicate SetsGrown(c: Config, p: Pool, v: VipState, rs: seq<NewReal>, w: Work) {
    && (forall n :: n in w.cur ==> n in Held(v, w))
    && (forall n :: n in Held(v, w) ==> n in w.pool.names)
    && (forall a :: a in w.pool.reals ==> (w.pool.reals[a].num in w.cur <==> InCur(c, p, v, rs, a)))
    && (forall a :: a in w.pool.reals ==> (w.pool.reals[a].num in Held(v, w) <==> InHeld(c, p, v, rs, a)))
  }

  /** The occurrence that takes one reference too many: the second of an address new to the pool. */
  ghost predicate LeakStep(c: Config, p: Pool, rs: seq<NewReal>, w: Work, r: NewReal) {
    c.parse(r.address).Some? &&
    var a := c.parse(r.address).value; a !in p.reals && a in w.pool.reals && Times(c, rs, a) == 1
  }

  lemma TimesNext(c: Config, rs: seq<NewReal>, r: NewReal, a: Addr)
    ensures Times(c, rs + [r], a) == Times(c, rs, a) + if c.parse(r.address) == Some(a) then 1 else 0
  {
  }

  /** The sets after one more real, for each address: one number may have joined them. */
  lemma AddedNext(c: Config, p: Pool, v: VipState, rs: seq<NewReal>, f: seq<Addr>, w: Work, r: NewReal, a: Addr)
    requires PoolOk(p) && Added(c, p, v, rs, f, w) && c.parse(r.address) == Some(a)
    ensures var f' := if a !in p.reals && a !in f && |f| < |p.free| then f + [a] else f;
      Added(c, p, v, rs + [r], f', AddOne(c, w, r))
  {
    NumbersNext(c, p, v, rs, f, w, r, a);
    SetsNext(c, p, v, rs, f, w, r, a);
    hide NumbersGiven, SetsGrown, AddOne;
  }

  lemma NumbersNext(c: Config, p: Pool, v: VipState, rs: seq<NewReal>, f: seq<Addr>, w: Work, r: NewReal, a: Addr)
    requires PoolOk(p) && NumbersGiven(c, p, rs, f, w) && c.parse(r.address) == Some(a)
    ensures var f' := if a !in p.reals && a !in f && |f| < |p.free| then f + [a] else f;
      NumbersGiven(c, p, rs + [r], f', AddOne(c, w, r))
  {
    hide PoolOk, AddOne, Occurred, NumberFor;
    AddOneShape(c, v, w, r, a);
    OccurredNext(c, p, rs, f, r, a);
  }

  lemma SetsNext(c: Config, p: Pool, v: VipState, rs: seq<NewReal>, f: seq<Addr>, w: Work, r: NewReal, a: Addr)
    requires PoolOk(p) && Added(c, p, v, rs, f, w) && c.parse(r.address) == Some(a)
    ensures SetsGrown(c, p, v, rs + [r], AddOne(c, w, r))
  {
    hide Held, AddOne, InCur, InHeld, NumbersGiven, PoolOk;
    var w' := AddOne(c, w, r);
    SetsInside(c, p, v, rs, f, w, r, a);
    forall x | x in w'.pool.reals
      ensures w'.pool.reals[x].num in w'.cur <==> InCur(c, p, v, rs + [r], x)
      ensures w'.pool.reals[x].num in Held(v, w') <==> InHeld(c, p, v, rs + [r], x)
    {
      AddedSets(c, p, v, rs, f, w, r, a, w', x);
    }
  }

  lemma SetsInside(c: Config, p: Pool, v: VipState, rs: seq<NewReal>, f: seq<Addr>, w: Work, r: NewReal, a: Addr)
    requires PoolOk(p) && Added(c, p, v, rs, f, w) && c.parse(r.address) == Some(a)
    ensures var w' := AddOne(c, w, r);
      (forall n :: n in w'.cur ==> n in Held(v, w')) && (forall n :: n in Held(v, w') ==> n in w'.pool.names)
  {
    AcquireCounts(w.pool, a);
    NumbersDiffer(w.pool);
    AddOneSets(c, v, w, r, a);
    hide Acquire, Held, RefCount, PoolOk, AddOne, InCur, InHeld, Occurred;
  }

  lemma AddedSets(c: Config, p: Pool, v: VipState, rs: seq<NewReal>, f: seq<Addr>, w: Work, r: NewReal, a: Addr,
      w': Work, x: Addr)
    requires PoolOk(p) && Added(c, p, v, rs, f, w) && c.parse(r.address) == Some(a) && w' == AddOne(c, w, r)
    requires x in w'.pool.reals
    ensures w'.pool.reals[x].num in w'.cur <==> InCur(c, p, v, rs + [r], x)
    ensures w'.pool.reals[x].num in Held(v, w') <==> InHeld(c, p, v, rs + [r], x)
  {
    if x == a {
      AddedOwn(c, p, v, rs, f, w, r, a);
    } else {
      AddedOther(c, p, v, rs, f, w, r, a, x);
    }
    hide Held, PoolOk, AddOne, Added, InCur, InHeld;
  }

  lemma AddedOwn(c: Config, p: Pool, v: VipState, rs: seq<NewReal>, f: seq<Addr>, w: Work, r: NewReal, a: Addr)
    requires PoolOk(p) && Added(c, p, v, rs, f, w) && c.parse(r.address) == Some(a)
    ensures var w' := AddOne(c, w, r); a in w'.pool.reals ==>
      && (w'.pool.reals[a].num in w'.cur <==> InCur(c, p, v, rs + [r], a))
      && (w'.pool.reals[a].num in Held(v, w') <==> InHeld(c, p, v, rs + [r], a))
  {
    assert a in w.pool.reals && a !in p.reals ==> a in f && Times(c, rs, a) >= 1;
    hide Held, Times, PoolOk, AddOne, Occurred, Acquire;
    AddOneShape(c, v, w, r, a);
    AddOneSets(c, v, w, r, a);
    TimesNext(c, rs, r, a);
    if a !in w.pool.reals && w.pool.free != [] {
      FirstTime(c, p, v, rs, f, w, a);
    }
  }

  lemma AddedOther(c: Config, p: Pool, v: VipState, rs: seq<NewReal>, f: seq<Addr>, w: Work, r: NewReal, a: Addr,
      x: Addr)
    requires PoolOk(p) && Added(c, p, v, rs, f, w) && c.parse(r.address) == Some(a)
    requires x != a && x in AddOne(c, w, r).pool.reals
    ensures var w' := AddOne(c, w, r);
      && (w'.pool.reals[x].num in w'.cur <==> InCur(c, p, v, rs + [r], x))
      && (w'.pool.reals[x].num in Held(v, w') <==> InHeld(c, p, v, rs + [r], x))
  {
    hide Held, Times, PoolOk, AddOne, Occurred, Acquire;
    AddOneShape(c, v, w, r, a);
    AddOneSets(c, v, w, r, a);
    TimesNext(c, rs, r, x);
    OthersDiffer(w.pool, AddOne(c, w, r).pool, a, x);
  }

  lemma OthersDiffer(p: Pool, q: Pool, a: Addr, x: Addr)
    requires PoolOk(p) && NumbersGrown(p, a, q) && x != a && x in q.reals
    ensures x in p.reals && q.reals[x].num == p.reals[x].num && q.reals[x].num != NumberFor(p, a)
  {
    if p.free != [] { assert p.free[0] in p.free; }
  }

  lemma OccurredNext(c: Config, p: Pool, rs: seq<NewReal>, f: seq<Addr>, r: NewReal, a: Addr)
    requires Occurred(c, p, rs, f) && c.parse(r.address) == Some(a) && |f| <= |p.free|
    ensures Occurred(c, p, rs + [r], if a !in p.reals && a !in f && |f| < |p.free| then f + [a] else f)
  {
  }

  /** An address without a number, of a batch that found one free, has not occurred yet. */
  lemma FirstTime(c: Config, p: Pool, v: VipState, rs: seq<NewReal>, f: seq<Addr>, w: Work, a: Addr)
    requires Added(c, p, v, rs, f, w) && a !in w.pool.reals && w.pool.free != []
    ensures Times(c, rs, a) == 0
  {
  }

  lemma AcquireNumbers(p: Pool, a: Addr)
    requires PoolOk(p)
    ensures var p' := Acquire(p, a);
      && p'.max == p.max
      && p'.free == (if a in p.reals || p.free == [] then p.free else p.free[1..])
      && forall x :: x in p.reals ==> x in p'.reals && p'.reals[x].num == p.reals[x].num
  {
  }

  /** How adding one real changes who has a number; references aside. */
  ghost predicate NumbersGrown(p: Pool, a: Addr, q: Pool) {
    && PoolOk(q) && q.max == p.max
    && q.free == (if a in p.reals || p.free == [] then p.free else p.free[1..])
    && (forall x :: x in q.reals <==> x in p.reals || (x == a && p.free != []))
    && (forall x :: x in p.reals && x in q.reals ==> q.reals[x].num == p.reals[x].num)
    && (a in q.reals ==> q.reals[a].num == NumberFor(p, a))
    && (forall n :: n in p.names ==> n in q.names)
  }

  lemma AddOneShape(c: Config, v: VipState, w: Work, r: NewReal, a: Addr)
    requires PoolOk(w.pool) && c.parse(r.address) == Some(a)
    ensures NumbersGrown(w.pool, a, AddOne(c, w, r).pool)
    ensures NumberFor(w.pool, a) == w.pool.max <==> a !in w.pool.reals && w.pool.free == []
    ensures w.pool.free != [] ==> w.pool.free[0] !in w.pool.names
  {
    AcquireCounts(w.pool, a);
    AcquireNumbers(w.pool, a);
    NumbersDiffer(w.pool);
    AddOneSets(c, v, w, r, a);
    if a in AddOne(c, w, r).pool.reals { NumberIsNamed(AddOne(c, w, r).pool, a); }
    if w.pool.free != [] { assert w.pool.free[0] in w.pool.free; }
    hide AddOne, Acquire, PoolOk, RefCount, Held;
  }

  /** Two reals never share a number. */
  lemma NumbersDiffer(p: Pool)
    requires PoolOk(p)
    ensures forall x :: x in p.reals ==>
      p.reals[x].num in p.names && p.names[p.reals[x].num] == x && p.reals[x].num < p.max
    ensures forall n :: n in p.free ==> n !in p.names
  {
  }

  /** One more real is counted right unless it is the second occurrence of a new address. */
  lemma AddOneExact(c: Config, b: Books, k: VipKey, v: VipState, rs: seq<NewReal>, f: seq<Addr>, w: Work,
      r: NewReal, a: Addr)
    requires k in b.members && Covered(WorkBooks(b, k, v, w)) && c.parse(r.address) == Some(a)
    requires PoolOk(b.pool) && Added(c, b.pool, v, rs, f, w)
    ensures var w' := AddOne(c, w, r);
      && Covered(WorkBooks(b, k, v, w'))
      && (Exact(WorkBooks(b, k, v, w')) <==> Exact(WorkBooks(b, k, v, w)) && !LeakStep(c, b.pool, rs, w, r))
  {
    var w', n := AddOne(c, w, r), NumberFor(w.pool, a);
    AddOneShape(c, v, w, r, a);
    AddOneSets(c, v, w, r, a);
    LeakIsHeld(c, b.pool, v, rs, f, w, r, a);
    assert n == w.pool.max ==> Acquire(w.pool, a) == w.pool;
    hide AddOne, NumberFor, NumbersGrown, Acquire, Held, PoolOk, Covered, Exact, RefCount, WorkBooks, Added, LeakStep;
    if n == w.pool.max || (a in w.pool.reals && n in w.cur) {
      SameBooks(b, k, v, w, w');
    } else {
      JoinWorkExact(b, k, v, w, w', a);
    }
  }

  /** A reference is taken for a real already held exactly in a leak step. */
  lemma LeakIsHeld(c: Config, p: Pool, v: VipState, rs: seq<NewReal>, f: seq<Addr>, w: Work, r: NewReal, a: Addr)
    requires PoolOk(p) && Added(c, p, v, rs, f, w) && c.parse(r.address) == Some(a)
    ensures var n := NumberFor(w.pool, a);
      LeakStep(c, p, rs, w, r) <==> n != w.pool.max && !(a in w.pool.reals && n in w.cur) && n in Held(v, w)
    ensures a in w.pool.reals && NumberFor(w.pool, a) in w.cur ==> NumberFor(w.pool, a) in Held(v, w)
  {
  }

  /** Each new address that gets a number occurs once. */
  ghost predicate NewOccurOnce(c: Config, p: Pool, rs: seq<NewReal>) {
    forall a :: a in Numbered(c, p, rs) ==> Times(c, rs, a) == 1
  }

  lemma NewOccurOnceNext(c: Config, p: Pool, rs: seq<NewReal>, r: NewReal, w: Work, a: Addr)
    requires c.parse(r.address) == Some(a) && Occurred(c, p, rs, Numbered(c, p, rs))
    requires forall x :: x in w.pool.reals <==> x in p.reals || x in Numbered(c, p, rs)
    ensures NewOccurOnce(c, p, rs + [r]) <==> NewOccurOnce(c, p, rs) && !LeakStep(c, p, rs, w, r)
    ensures Numbered(c, p, rs + [r]) ==
      var f := Numbered(c, p, rs); if a !in p.reals && a !in f && |f| < |p.free| then f + [a] else f
  {
  }

  lemma {:induction false} AddBatch(c: Config, b: Books, k: VipKey, v: VipState, rs: seq<NewReal>)
    requires k in b.members && b.members[k] == v.reals.Keys && Exact(b)
    ensures var w := AddWork(c, b.pool, v.reals.Keys, rs);
      && Added(c, b.pool, v, rs, Numbered(c, b.pool, rs), w) && Covered(WorkBooks(b, k, v, w))
      && (Exact(WorkBooks(b, k, v, w)) <==> NewOccurOnce(c, b.pool, rs))
  {
    if rs == [] {
      AddNothing(c, b, k, v);
    } else {
      var front, r := rs[..|rs| - 1], rs[|rs| - 1];
      assert rs == front + [r];
      AddBatch(c, b, k, v, front);
      var w, x := AddWork(c, b.pool, v.reals.Keys, front), c.parse(r.address);
      var f := Numbered(c, b.pool, front);
      assert AddWork(c, b.pool, v.reals.Keys, rs) == AddOne(c, w, r);
      if x.Some? {
        hide Covered, Exact, WorkBooks, DoReals, AddOne, Numbered, Times, LeakStep, NewOccurOnce;
        AddedNext(c, b.pool, v, front, f, w, r, x.value);
        AddOneExact(c, b, k, v, front, f, w, r, x.value);
        NewOccurOnceNext(c, b.pool, front, r, w, x.value);
      } else {
        InvalidNext(c, b.pool, v, front, f, w, r);
      }
    }
  }

  /** An address that does not parse changes nothing. */
  lemma InvalidNext(c: Config, p: Pool, v: VipState, rs: seq<NewReal>, f: seq<Addr>, w: Work, r: NewReal)
    requires Added(c, p, v, rs, f, w) && c.parse(r.address).None?
    ensures Added(c, p, v, rs + [r], f, w) && Numbered(c, p, rs + [r]) == Numbered(c, p, rs)
    ensures NewOccurOnce(c, p, rs + [r]) <==> NewOccurOnce(c, p, rs)
  {
    assert (rs + [r])[..|rs|] == rs;
    forall x ensures Times(c, rs + [r], x) == Times(c, rs, x) {
      TimesNext(c, rs, r, x);
    }
    hide Times, Numbered, Held, PoolOk;
  }

  lemma AddNothing(c: Config, b: Books, k: VipKey, v: VipState)
    requires k in b.members && b.members[k] == v.reals.Keys && Exact(b)
    ensures var w := Work(b.pool, v.reals.Keys, []);
      Added(c, b.pool, v, [], [], w) && WorkBooks(b, k, v, w) == b
  {
    var w := Work(b.pool, v.reals.Keys, []);
    assert Held(v, w) == v.reals.Keys;
    forall n | n in v.reals ensures n in b.pool.names {
      CoveredIsLive(b, k, n);
    }
    assert b.members[k := v.reals.Keys] == b.members;
  }

  /**
   From exact counts, an addition batch leaves exact counts if and only if no address that
   is new to the pool and gets a number occurs in it twice.
   */
  lemma AddBatchExactIff(c: Config, b: Books, k: VipKey, v: VipState, rs: seq<NewReal>)
    requires k in b.members && b.members[k] == v.reals.Keys && Exact(b)
    ensures Exact(WorkBooks(b, k, v, AddWork(c, b.pool, v.reals.Keys, rs))) <==> NewOccurOnce(c, b.pool, rs)
  {
    AddBatch(c, b, k, v, rs);
  }

  // ---------------------------------------------------------------------
  // Source prefixes that are set again
  // ---------------------------------------------------------------------

  /** How many of the prefixes are installed before the table is full; none without a number for the destination. */
  ghost function Installed(c: Config, keys: set<Net>, srcs: seq<Net>, numbered: bool): (m: nat)
    ensures m <= |srcs|
  {
    if srcs == [] then 0 else
      var front := srcs[..|srcs| - 1];
      var m := Installed(c, keys, front, numbered);
      if m < |front| || |keys + Elements(front)| + 1 > c.maxRules || !numbered then m else |srcs|
  }

  /** No prefix is mapped already or given twice. */
  ghost predicate NewPrefixes(keys: set<Net>, srcs: seq<Net>) {
    Distinct(srcs) && forall i :: 0 <= i < |srcs| ==> srcs[i] !in keys
  }

  lemma NewPrefixesNext(keys: set<Net>, front: seq<Net>, src: Net)
    ensures NewPrefixes(keys, front + [src]) <==> NewPrefixes(keys, front) && src !in keys + Elements(front)
    ensures Elements(front + [src]) == Elements(front) + {src}
  {
    var srcs := front + [src];
    assert srcs[..|front|] == front && srcs[|front|] == src;
    if NewPrefixes(keys, srcs) {
      forall i, j | 0 <= i < j < |front| ensures front[i] != front[j] {
        assert srcs[i] != srcs[j];
      }
      forall i | 0 <= i < |front| ensures front[i] !in keys && front[i] != src {
        assert srcs[i] != srcs[|front|] && srcs[i] == front[i];
      }
    }
  }

  /** The state after installing the prefixes `done`: exact if and only if it was and they were new. */
  ghost predicate AfterRules(s: Lb, dst: Addr, done: seq<Net>, s1: Lb) {
    && Covered(BooksOf(s1)) && s1.pool.max == s.pool.max
    && (if done == [] then s1 == s else dst in s1.pool.reals)
    && s1.rules.Keys == s.rules.Keys + Elements(done)
    && (Exact(BooksOf(s1)) <==> Exact(BooksOf(s)) && NewPrefixes(s.rules.Keys, done))
  }

  lemma AfterNextRule(s: Lb, dst: Addr, done: seq<Net>, s1: Lb, src: Net)
    requires AfterRules(s, dst, done, s1) && NumberFor(s1.pool, dst) != s1.pool.max
    ensures AfterRules(s, dst, done + [src], AddRule(s1, src, dst))
  {
    assert PoolOk(s1.pool);
    hide Covered, Exact, BooksOf, NewPrefixes, AddRule, PoolOk, Elements, NumberFor, Acquire;
    AddRuleBooks(s1, src, dst);
    AddRuleTakes(s1, src, dst);
    NewPrefixesNext(s.rules.Keys, done, src);
    assert done + [src] != [];
  }

  /** Whether there is a number does not change while prefixes are installed. */
  lemma StillNumbered(s: Lb, dst: Addr, done: seq<Net>, s1: Lb)
    requires AfterRules(s, dst, done, s1) && (done != [] ==> NumberFor(s.pool, dst) != s.pool.max)
    ensures NumberFor(s1.pool, dst) != s1.pool.max <==> NumberFor(s.pool, dst) != s.pool.max
    ensures NumberFor(s1.pool, dst) == s1.pool.max ==> s1.(pool := Acquire(s1.pool, dst)) == s1
    ensures |s1.rules| == |s.rules.Keys + Elements(done)|
  {
    assert PoolOk(s1.pool);
    NumberBelow(s1.pool, dst);
    AddRuleBooks(s1, Net(dst, 0), dst);
    assert |s1.rules| == |s1.rules.Keys|;
  }

  /** What the call did, as a statement about the prefixes it installed. */
  ghost predicate Installs(c: Config, s: Lb, srcs: seq<Net>, dst: Addr) {
    var (s', ok) := AddRules(c, s, srcs, dst);
    var m := Installed(c, s.rules.Keys, srcs, NumberFor(s.pool, dst) != s.pool.max);
    (ok <==> m == |srcs|) && AfterRules(s, dst, srcs[..m], s')
  }

  lemma InstallsNone(c: Config, s: Lb, dst: Addr)
    requires Covered(BooksOf(s))
    ensures Installs(c, s, [], dst)
  {
    hide Covered, BooksOf;
    assert NewPrefixes(s.rules.Keys, []);
    assert s.rules.Keys + Elements([]) == s.rules.Keys;
  }

  lemma InstallsNext(c: Config, s: Lb, front: seq<Net>, src: Net, dst: Addr)
    requires Installs(c, s, front, dst)
    ensures Installs(c, s, front + [src], dst)
  {
    hide AfterRules, Acquire, AddRule, NumberFor, Elements, AddRules, Installed;
    var srcs, numbered := front + [src], NumberFor(s.pool, dst) != s.pool.max;
    var s1, m := AddRules(c, s, front, dst).0, Installed(c, s.rules.Keys, front, numbered);
    AddRulesAppend(c, s, front, src, dst);
    InstalledAppend(c, s.rules.Keys, front, src, numbered);
    InstalledNumbered(c, s.rules.Keys, front, numbered);
    StillNumbered(s, dst, front[..m], s1);
    assert srcs[..m] == front[..m] && front[..|front|] == front && srcs[..|srcs|] == srcs;
    if m == |front| && |s1.rules| + 1 <= c.maxRules && numbered {
      AfterNextRule(s, dst, front, s1, src);
    }
  }

  lemma AddRulesAppend(c: Config, s: Lb, front: seq<Net>, src: Net, dst: Addr)
    ensures AddRules(c, s, front + [src], dst) ==
      var (s1, ok) := AddRules(c, s, front, dst);
      if !ok || |s1.rules| + 1 > c.maxRules then (s1, false)
      else if NumberFor(s1.pool, dst) == s1.pool.max then (s1.(pool := Acquire(s1.pool, dst)), false)
      else (AddRule(s1, src, dst), true)
  {
    hide NumberFor, Acquire, AddRule;
    assert (front + [src])[..|front|] == front;
  }

  lemma InstalledAppend(c: Config, keys: set<Net>, front: seq<Net>, src: Net, numbered: bool)
    ensures Installed(c, keys, front + [src], numbered) ==
      var m := Installed(c, keys, front, numbered);
      if m < |front| || |keys + Elements(front)| + 1 > c.maxRules || !numbered then m else |front| + 1
  {
    hide Elements;
    assert (front + [src])[..|front|] == front;
  }

  lemma {:induction false} AddRulesInstalls(c: Config, s: Lb, srcs: seq<Net>, dst: Addr)
    requires Covered(BooksOf(s))
    ensures Installs(c, s, srcs, dst)
  {
    hide Installs, Covered, BooksOf;
    if srcs == [] {
      InstallsNone(c, s, dst);
    } else {
      var front, src := srcs[..|srcs| - 1], srcs[|srcs| - 1];
      AddRulesInstalls(c, s, front, dst);
      InstallsNext(c, s, front, src, dst);
      assert srcs == front + [src];
    }
  }

  /**
   The whole call, with its early exits: from exact counts it leaves exact counts if and only
   if the prefixes it installs are new and distinct.
   */
  lemma AddRulesExactIff(c: Config, s: Lb, srcs: seq<Net>, dst: Addr)
    requires Exact(BooksOf(s))
    ensures var m := Installed(c, s.rules.Keys, srcs, NumberFor(s.pool, dst) != s.pool.max);
      Exact(BooksOf(AddRules(c, s, srcs, dst).0)) <==> NewPrefixes(s.rules.Keys, srcs[..m])
  {
    AddRulesInstalls(c, s, srcs, dst);
  }

  lemma {:induction false} InstalledNumbered(c: Config, keys: set<Net>, srcs: seq<Net>, numbered: bool)
    ensures Installed(c, keys, srcs, numbered) > 0 ==> numbered
  {
    if srcs != [] {
      InstalledNumbered(c, keys, srcs[..|srcs| - 1], numbered);
    }
  }

  lemma NumberBelow(p: Pool, a: Addr)
    requires PoolOk(p)
    ensures a in p.reals ==> NumberFor(p, a) != p.max
  {
  }

  lemma AddRuleTakes(s: Lb, src: Net, dst: Addr)
    requires PoolOk(s.pool)
    ensures NumberFor(s.pool, dst) != s.pool.max ==>
      var s' := AddRule(s, src, dst);
      dst in s'.pool.reals && s'.pool.max == s.pool.max && s'.rules.Keys == s.rules.Keys + {src}
  {
  }

  // ---------------------------------------------------------------------
  // Every call
  // ---------------------------------------------------------------------

  /** The exact condition, in terms of the state before the call, for counts to stay exact. */
  ghost predicate KeepsExact(c: Config, s: Lb, op: Op) {
    match op
    case ModifyReals(k, action, rs) =>
      k in s.vips ==> if action == Add then NewOccurOnce(c, s.pool, rs) else RepeatsAreLast(c, s.pool, s.vips[k], rs)
    case AddSrcRules(srcs, dst) =>
      var m := Installed(c, s.rules.Keys, srcs, NumberFor(s.pool, dst) != s.pool.max);
      NewPrefixes(s.rules.Keys, srcs[..m])
    case _ => true
  }

  lemma BatchExactIff(c: Config, s: Lb, k: VipKey, action: ModifyAction, rs: seq<NewReal>, s': Lb)
    requires c.ringSize >= 2 && Exact(BooksOf(s)) && ModifyRealsStep(c, s, k, action, rs, s')
    ensures Exact(BooksOf(s')) <==> KeepsExact(c, s, ModifyReals(k, action, rs))
  {
    if k in s.vips {
      BatchBooks(c, s, k, action, rs, s');
      hide Exact, ModifyRealsStep, WorkBooks, BooksOf, NewOccurOnce, RepeatsAreLast, DoReals;
      assert BooksOf(s).pool == s.pool && k in BooksOf(s).members by { PoolOfBooks(s); }
      if action == Add {
        AddBatchExactIff(c, BooksOf(s), k, s.vips[k], rs);
      } else {
        DelBatchExactIff(c, BooksOf(s), k, s.vips[k], rs);
      }
    }
  }

  lemma PoolOfBooks(s: Lb)
    ensures BooksOf(s).pool == s.pool && BooksOf(s).members.Keys == s.vips.Keys
  {
  }

  /** From exact counts every call leaves exact counts if and only if its condition holds. */
  lemma StepExactIff(c: Config, s: Lb, op: Op, s': Lb)
    requires c.ringSize >= 2 && Exact(BooksOf(s)) && Step(c, s, op, s')
    ensures Exact(BooksOf(s')) <==> KeepsExact(c, s, op)
  {
    assert Covered(BooksOf(s));
    hide Covered, Exact, BooksOf, DoAddVip, AddRules, DelRules, QuicAll, DoModifyVip, ModifyRealsStep, DelVipStep;
    hide NewPrefixes, NewOccurOnce, RepeatsAreLast;
    match op
    case AddVip(k, flags) => AddVipKeeps(c, s, k, flags);
    case DelVip(k) => DelVipKeeps(c, s, k, s');
    case ModifyVip(k, flags, on) => ModifyVipKeeps(c, s, k, flags, on);
    case ModifyReals(k, action, rs) => BatchExactIff(c, s, k, action, rs, s');
    case AddSrcRules(srcs, dst) => AddRulesExactIff(c, s, srcs, dst);
    case DelSrcRules(srcs) => DelRulesKeeps(s, srcs);
    case ClearSrcRules =>
      var srcs :| Distinct(srcs) && Elements(srcs) == s.rules.Keys && s' == DelRules(s, srcs);
      DelRulesKeeps(s, srcs);
    case ModifyQuic(action, qs) => QuicKeeps(c, action, s, qs);
    case GetReals(k) => if k in s.vips { ReadsKeep(s, s.vips[k].reals.Keys); }
    case GetSrcRules => ReadsKeep(s, s.rules.Values);
  }

  lemma {:induction false} TimesAtMostOnce(c: Config, rs: seq<NewReal>, a: Addr)
    requires DistinctAddresses(c, rs)
    ensures Times(c, rs, a) <= 1
    ensures Times(c, rs, a) == 1 <==> a in Addresses(c, rs)
  {
    if rs != [] {
      var front, r := rs[..|rs| - 1], rs[|rs| - 1];
      assert rs == front + [r];
      TimesAtMostOnce(c, front, a);
      AddressesAfter(c, front, r);
      if c.parse(r.address).Some? {
        NotBefore(c, front, r);
      }
    }
  }

  /** In particular a batch that repeats no address keeps counts exact. */
  lemma DistinctKeepsExact(c: Config, s: Lb, k: VipKey, action: ModifyAction, rs: seq<NewReal>)
    requires DistinctAddresses(c, rs)
    ensures KeepsExact(c, s, ModifyReals(k, action, rs))
  {
    hide DistinctAddresses, Times;
    forall a ensures Times(c, rs, a) <= 1 {
      TimesAtMostOnce(c, rs, a);
    }
    forall a | a in Numbered(c, s.pool, rs) ensures Times(c, rs, a) >= 1 {
      NumberedOccur(c, s.pool, rs, a);
    }
  }

  lemma {:induction false} NumberedOccur(c: Config, p: Pool, rs: seq<NewReal>, a: Addr)
    requires a in Numbered(c, p, rs)
    ensures Times(c, rs, a) >= 1
  {
    var front, r := rs[..|rs| - 1], rs[|rs| - 1];
    if a in Numbered(c, p, front) {
      NumberedOccur(c, p, front, a);
    }
  }
}
