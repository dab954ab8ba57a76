/**
 The user-space tables and the kernel tables over whole runs: VIP numbers, rings and the
 kernel's copies stay in step, whatever sequence of calls was made.
 */
module TableSafety {
  import opened Residues
  import opened Maglev
  import opened Vips
  import opened Allocator
  import opened Prefixes
  import opened ControlPlane
  import opened RefSafety

  // ---------------------------------------------------------------------
  // Numbers of VIPs
  // ---------------------------------------------------------------------

  /** Free and used VIP numbers partition `0..maxVips - 1`. */
  ghost predicate VipNumbersOk(c: Config, s: Lb) {
    && Distinct(s.vipNums)
    && (forall n :: n in s.vipNums ==> n < c.maxVips)
    && (forall k :: k in s.vips ==> s.vips[k].num < c.maxVips && s.vips[k].num !in s.vipNums)
    && (forall j, k :: j in s.vips && k in s.vips && j != k ==> s.vips[j].num != s.vips[k].num)
    && (forall n: nat :: n < c.maxVips ==> n in s.vipNums || UsedByVip(s, n))
  }

  ghost predicate UsedByVip(s: Lb, n: nat) {
    exists k :: k in s.vips && s.vips[k].num == n
  }

  /** Same VIPs with the same numbers. */
  ghost predicate SameNumbers(s: Lb, s': Lb) {
    && s'.vipNums == s.vipNums && s'.vips.Keys == s.vips.Keys
    && forall k :: k in s.vips ==> s'.vips[k].num == s.vips[k].num
  }

  lemma SameNumbersOk(c: Config, s: Lb, s': Lb)
    requires VipNumbersOk(c, s) && SameNumbers(s, s')
    ensures VipNumbersOk(c, s')
  {
    forall n: nat | UsedByVip(s, n) ensures UsedByVip(s', n) {
      var k :| k in s.vips && s.vips[k].num == n;
      assert k in s'.vips;
    }
  }

  lemma AddVipNumbers(c: Config, s: Lb, k: VipKey, flags: bv32)
    requires VipNumbersOk(c, s)
    ensures VipNumbersOk(c, DoAddVip(c, s, k, flags))
  {
    hide Def, EmptyRing, MetaFor;
    var s' := DoAddVip(c, s, k, flags);
    if c.parse(k.address).Some? && s.vipNums != [] && k !in s.vips {
      var n0 := s.vipNums[0];
      HeadTaken(s.vipNums);
      assert s'.vips == s.vips[k := s'.vips[k]] && s'.vips[k].num == n0 && s'.vipNums == s.vipNums[1..];
      hide DoAddVip, Distinct;
      forall n: nat | UsedByVip(s, n) || n == n0 ensures UsedByVip(s', n) {
        if n == n0 {
          assert k in s'.vips && s'.vips[k].num == n;
        } else {
          var j :| j in s.vips && s.vips[j].num == n;
          assert j in s'.vips && s'.vips[j].num == n;
        }
      }
      hide UsedByVip;
    }
  }

  lemma HeadTaken(nums: seq<nat>)
    requires Distinct(nums) && nums != []
    ensures Distinct(nums[1..]) && nums[0] in nums && forall n :: n in nums[1..] <==> n in nums && n != nums[0]
  {
    forall n | n in nums && n != nums[0] ensures n in nums[1..] {
      var i :| 0 <= i < |nums| && nums[i] == n;
      assert nums[1..][i - 1] == n;
    }
    forall n | n in nums[1..] ensures n in nums && n != nums[0] {
      var i :| 0 <= i < |nums| - 1 && nums[1..][i] == n;
      assert nums[i + 1] == n;
    }
  }

  lemma DelVipNumbers(c: Config, s: Lb, k: VipKey, nums: seq<nat>)
    requires VipNumbersOk(c, s) && k in s.vips
    ensures VipNumbersOk(c, DoDelVip(c, s, k, nums))
  {
    hide ReleaseAll;
    var s' := DoDelVip(c, s, k, nums);
    forall n: nat | n < c.maxVips ensures n in s'.vipNums || UsedByVip(s', n) {
      if n !in s.vipNums && n != s.vips[k].num {
        var j :| j in s.vips && s.vips[j].num == n;
        assert j in s'.vips && s'.vips[j].num == n;
      }
    }
  }

  // ---------------------------------------------------------------------
  // How a call changes the pool's names
  // ---------------------------------------------------------------------

  ghost predicate NamesGrow(p: Pool, q: Pool) {
    forall n: nat :: n in p.names ==> n in q.names && q.names[n] == p.names[n]
  }

  /** Numbers live before and after name the same real. */
  ghost predicate NamesAgree(p: Pool, q: Pool) {
    forall n: nat :: n in p.names && n in q.names ==> q.names[n] == p.names[n]
  }

  lemma AcquireGrows(p: Pool, a: Addr)
    requires PoolOk(p)
    ensures NamesGrow(p, Acquire(p, a)) && Acquire(p, a).max == p.max
  {
  }

  lemma ReleaseShrinks(p: Pool, a: Addr)
    requires PoolOk(p)
    ensures NamesGrow(Release(p, a), p) && Release(p, a).max == p.max
  {
  }

  lemma {:induction false} BatchNames(c: Config, action: ModifyAction, w: Work, rs: seq<NewReal>)
    requires PoolOk(w.pool)
    ensures var w' := DoReals(c, action, w, rs);
      && PoolOk(w'.pool) && w'.pool.max == w.pool.max
      && if action == Add then NamesGrow(w.pool, w'.pool) else NamesGrow(w'.pool, w.pool)
  {
    if rs != [] {
      var front, r := rs[..|rs| - 1], rs[|rs| - 1];
      BatchNames(c, action, w, front);
      hide DoOne, PoolOk;
      DoOneNames(c, action, DoReals(c, action, w, front), r);
    }
  }

  lemma DoOneNames(c: Config, action: ModifyAction, w: Work, r: NewReal)
    requires PoolOk(w.pool)
    ensures var w' := DoOne(c, action, w, r);
      && PoolOk(w'.pool) && w'.pool.max == w.pool.max
      && if action == Add then NamesGrow(w.pool, w'.pool) else NamesGrow(w'.pool, w.pool)
  {
    hide Acquire, Release, PoolOk, NumberFor;
    if c.parse(r.address).Some? {
      var a := c.parse(r.address).value;
      PoolStepNames(w.pool, a);
    }
  }

  lemma PoolStepNames(p: Pool, a: Addr)
    requires PoolOk(p)
    ensures PoolOk(Acquire(p, a)) && NamesGrow(p, Acquire(p, a)) && Acquire(p, a).max == p.max
    ensures PoolOk(Release(p, a)) && NamesGrow(Release(p, a), p) && Release(p, a).max == p.max
  {
    AcquireKeepsPool(p, a);
    ReleaseKeepsPool(p, a);
    AcquireGrows(p, a);
    ReleaseShrinks(p, a);
  }

  lemma {:induction false} ReleaseAllNames(p: Pool, nums: seq<nat>)
    requires PoolOk(p)
    ensures var q := ReleaseAll(p, nums); PoolOk(q) && q.max == p.max && NamesGrow(q, p)
  {
    if nums != [] {
      ReleaseAllNames(p, nums[..|nums| - 1]);
      var q := ReleaseAll(p, nums[..|nums| - 1]);
      hide ReleaseNumber, PoolOk;
      ReleaseNumberNames(q, nums[|nums| - 1]);
    }
  }

  lemma ReleaseNumberNames(p: Pool, n: nat)
    requires PoolOk(p)
    ensures var q := ReleaseNumber(p, n); PoolOk(q) && q.max == p.max && NamesGrow(q, p)
  {
    hide Release;
    if n in p.names {
      PoolStepNames(p, p.names[n]);
    }
  }

  lemma AddRuleNames(s: Lb, src: Net, dst: Addr)
    ensures RulesOnly(s, AddRule(s, src, dst)) && AddRule(s, src, dst).pool == Acquire(s.pool, dst)
  {
    hide Acquire, KeyOf, NumberFor;
    var s' := AddRule(s, src, dst);
    if RulesOwned(s) {
      forall q | q in s'.kernel.rules ensures OwnedByRule(s'.rules, q, s'.kernel.rules[q]) {
        if q == KeyOf(src) {
          assert src in s'.rules;
        } else {
          assert OwnedByRule(s.rules, q, s.kernel.rules[q]);
          var r :| r in s.rules && KeyOf(r) == q && s.rules[r] == s.kernel.rules[q];
          assert r in s'.rules;
        }
      }
    }
  }

  lemma DelRuleNames(s: Lb, src: Net)
    ensures RulesOnly(s, DelRule(s, src))
    ensures DelRule(s, src).pool == if src in s.rules then ReleaseNumber(s.pool, s.rules[src]) else s.pool
  {
    hide ReleaseNumber, KeyOf;
    var s' := DelRule(s, src);
    if RulesOwned(s) {
      forall q | q in s'.kernel.rules ensures OwnedByRule(s'.rules, q, s'.kernel.rules[q]) {
        assert OwnedByRule(s.rules, q, s.kernel.rules[q]);
        var r :| r in s.rules && KeyOf(r) == q && s.rules[r] == s.kernel.rules[q];
        assert r in s'.rules;
      }
    }
  }

  lemma GrowTwice(p: Pool, q: Pool, r: Pool)
    requires NamesGrow(p, q) && NamesGrow(q, r)
    ensures NamesGrow(p, r)
  {
  }

  /** Every entry of the kernel's prefix table is that of a rule with those leading bits. */
  ghost predicate RulesOwned(s: Lb) {
    forall q :: q in s.kernel.rules ==> OwnedByRule(s.rules, q, s.kernel.rules[q])
  }

  ghost predicate OwnedByRule(rules: map<Net, nat>, q: LpmKey, n: nat) {
    exists r :: r in rules && KeyOf(r) == q && rules[r] == n
  }

  /** Only the pool and the two copies of the rules changed, and kernel entries still have owners. */
  ghost predicate RulesOnly(s: Lb, s': Lb) {
    && s' == s.(pool := s'.pool, rules := s'.rules, kernel := s.kernel.(rules := s'.kernel.rules))
    && (RulesOwned(s) ==> RulesOwned(s'))
  }

  lemma RulesOnlyTwice(s: Lb, s1: Lb, s2: Lb)
    ensures RulesOnly(s, s) && (RulesOnly(s, s1) && RulesOnly(s1, s2) ==> RulesOnly(s, s2))
    ensures RulesOnly(s, s1) && s2 == s1.(pool := s2.pool) ==> RulesOnly(s, s2)
  {
  }

  lemma {:induction false} AddRulesNames(c: Config, s: Lb, srcs: seq<Net>, dst: Addr)
    requires PoolOk(s.pool)
    ensures var s' := AddRules(c, s, srcs, dst).0;
      PoolOk(s'.pool) && s'.pool.max == s.pool.max && NamesGrow(s.pool, s'.pool) && RulesOnly(s, s')
  {
    if srcs != [] {
      AddRulesNames(c, s, srcs[..|srcs| - 1], dst);
      hide Acquire, PoolOk, NumberFor, AddRule, NamesGrow, RulesOnly;
      var s1, s2 := AddRules(c, s, srcs[..|srcs| - 1], dst).0, AddRules(c, s, srcs, dst).0;
      assert s2 == s1 || s2 == s1.(pool := Acquire(s1.pool, dst)) || s2 == AddRule(s1, srcs[|srcs| - 1], dst);
      hide AddRules;
      PoolStepNames(s1.pool, dst);
      AddRuleNames(s1, srcs[|srcs| - 1], dst);
      RulesOnlyTwice(s, s1, AddRule(s1, srcs[|srcs| - 1], dst));
      RulesOnlyTwice(s, s1, s1.(pool := Acquire(s1.pool, dst)));
      GrowTwice(s.pool, s1.pool, Acquire(s1.pool, dst));
    } else {
      hide RulesOnly;
      RulesOnlyTwice(s, s, s);
    }
  }

  lemma {:induction false} DelRulesNames(s: Lb, srcs: seq<Net>)
    requires PoolOk(s.pool)
    ensures var s' := DelRules(s, srcs);
      PoolOk(s'.pool) && s'.pool.max == s.pool.max && NamesGrow(s'.pool, s.pool) && RulesOnly(s, s')
  {
    if srcs != [] {
      DelRulesNames(s, srcs[..|srcs| - 1]);
      var s1, src := DelRules(s, srcs[..|srcs| - 1]), srcs[|srcs| - 1];
      hide ReleaseNumber, PoolOk, RulesOnly, DelRule;
      DelRuleNames(s1, src);
      RulesOnlyTwice(s, s1, DelRule(s1, src));
      if src in s1.rules {
        ReleaseNumberNames(s1.pool, s1.rules[src]);
      }
    } else {
      hide RulesOnly;
      RulesOnlyTwice(s, s, s);
    }
  }

  lemma {:induction false} QuicNames(c: Config, action: ModifyAction, s: Lb, qs: seq<QuicReal>)
    requires PoolOk(s.pool)
    ensures var s' := QuicAll(c, action, s, qs);
      && PoolOk(s'.pool) && s'.pool.max == s.pool.max
      && (if action == Add then NamesGrow(s.pool, s'.pool) else NamesGrow(s'.pool, s.pool))
      && s' == s.(pool := s'.pool, quic := s'.quic, kernel := s.kernel.(quic := s'.kernel.quic))
  {
    if qs != [] {
      QuicNames(c, action, s, qs[..|qs| - 1]);
      hide QuicOne, PoolOk;
      QuicOneNames(c, action, QuicAll(c, action, s, qs[..|qs| - 1]), qs[|qs| - 1]);
    }
  }

  lemma QuicOneNames(c: Config, action: ModifyAction, s: Lb, q: QuicReal)
    requires PoolOk(s.pool)
    ensures var s' := QuicOne(c, action, s, q);
      && PoolOk(s'.pool) && s'.pool.max == s.pool.max
      && (if action == Add then NamesGrow(s.pool, s'.pool) else NamesGrow(s'.pool, s.pool))
      && s' == s.(pool := s'.pool, quic := s'.quic, kernel := s.kernel.(quic := s'.kernel.quic))
  {
    hide Acquire, Release, PoolOk, NumberFor;
    if c.parse(q.address).Some? {
      PoolStepNames(s.pool, c.parse(q.address).value);
    }
  }

  // ---------------------------------------------------------------------
  // Rings
  // ---------------------------------------------------------------------

  /** The hash stored with an active real is the hash of the address its number stands for. */
  ghost predicate HashesOk(c: Config, p: Pool, reals: Reals) {
    forall n: nat :: IsActive(reals, n) ==> n in p.names && reals[n].hash == c.hash(p.names[n])
  }

  ghost predicate RingsOk(c: Config, s: Lb)
    requires c.ringSize >= 2
  {
    forall k :: k in s.vips ==> InSync(s.vips[k], c.ringSize, c.murmur) && HashesOk(c, s.pool, s.vips[k].reals)
  }

  /** A VIP whose reals are unchanged keeps its hashes, because its numbers stay live. */
  lemma HashesStay(c: Config, s: Lb, s': Lb, k: VipKey)
    requires NamesAgree(s.pool, s'.pool) && Covered(BooksOf(s'))
    requires k in s.vips && k in s'.vips && s'.vips[k].reals == s.vips[k].reals
    requires HashesOk(c, s.pool, s.vips[k].reals)
    ensures HashesOk(c, s'.pool, s'.vips[k].reals)
  {
    hide Covered;
    forall n: nat | IsActive(s'.vips[k].reals, n) ensures n in s'.pool.names {
      CoveredIsLive(BooksOf(s'), k, n);
    }
  }

  lemma RingsStay(c: Config, s: Lb, s': Lb)
    requires c.ringSize >= 2 && RingsOk(c, s) && NamesAgree(s.pool, s'.pool) && Covered(BooksOf(s'))
    requires forall k :: k in s'.vips ==>
      k in s.vips && s'.vips[k].reals == s.vips[k].reals && s'.vips[k].ring == s.vips[k].ring
    ensures RingsOk(c, s')
  {
    hide Covered, NamesAgree, HashesOk, HasActive, RingOf;
    forall k | k in s'.vips
      ensures InSync(s'.vips[k], c.ringSize, c.murmur) && HashesOk(c, s'.pool, s'.vips[k].reals)
    {
      HashesStay(c, s, s', k);
    }
  }

  /** Reals after one more update of the loop. */
  lemma ApplyAppend(reals: Reals, us: seq<UpdateReal>, u: UpdateReal)
    ensures Apply(reals, us + [u]) == ApplyOne(Apply(reals, us), u)
  {
  }

  lemma HashesGrow(c: Config, p: Pool, q: Pool, reals: Reals)
    requires HashesOk(c, p, reals) && NamesGrow(p, q)
    ensures HashesOk(c, q, reals)
  {
  }

  lemma AddedHash(c: Config, p: Pool, reals: Reals, n: nat, weight: nat, a: Addr)
    requires HashesOk(c, p, reals) && n in p.names && p.names[n] == a
    ensures HashesOk(c, p, ApplyOne(reals, UpdateReal(Add, Endpoint(n, weight, c.hash(a)))))
  {
  }

  lemma AddOneHashes(c: Config, v: VipState, w: Work, r: NewReal)
    requires PoolOk(w.pool) && HashesOk(c, w.pool, Apply(v.reals, w.ureals))
    ensures var w' := AddOne(c, w, r); HashesOk(c, w'.pool, Apply(v.reals, w'.ureals))
  {
    if c.parse(r.address).Some? {
      var a, w' := c.parse(r.address).value, AddOne(c, w, r);
      var n := NumberFor(w.pool, a);
      AcquireCounts(w.pool, a);
      hide Acquire, RefCount, Apply;
      AcquireGrows(w.pool, a);
      HashesGrow(c, w.pool, Acquire(w.pool, a), Apply(v.reals, w.ureals));
      if n != w.pool.max {
        ApplyAppend(v.reals, w.ureals, UpdateReal(Add, Endpoint(n, r.weight, c.hash(a))));
        AddedHash(c, w'.pool, Apply(v.reals, w.ureals), n, r.weight, a);
      }
    }
  }

  lemma {:induction false} AddBatchHashes(c: Config, v: VipState, p: Pool, rs: seq<NewReal>)
    requires PoolOk(p) && HashesOk(c, p, v.reals)
    ensures var w := DoReals(c, Add, Work(p, v.reals.Keys, []), rs); HashesOk(c, w.pool, Apply(v.reals, w.ureals))
  {
    if rs != [] {
      var front, r := rs[..|rs| - 1], rs[|rs| - 1];
      AddBatchHashes(c, v, p, front);
      BatchNames(c, Add, Work(p, v.reals.Keys, []), front);
      hide HashesOk, AddOne;
      AddOneHashes(c, v, DoReals(c, Add, Work(p, v.reals.Keys, []), front), r);
    }
  }

  lemma {:induction false} DelBatchReals(c: Config, v: VipState, w: Work, rs: seq<NewReal>, n: nat)
    ensures var w' := DoReals(c, Del, w, rs);
      IsActive(Apply(v.reals, w'.ureals), n) ==>
        IsActive(Apply(v.reals, w.ureals), n) && Apply(v.reals, w'.ureals)[n] == Apply(v.reals, w.ureals)[n]
  {
    if rs != [] {
      var front, r := rs[..|rs| - 1], rs[|rs| - 1];
      DelBatchReals(c, v, w, front, n);
      var m := DoReals(c, Del, w, front);
      if c.parse(r.address).Some? && c.parse(r.address).value in m.pool.reals {
        var u := UpdateReal(Del, Endpoint(m.pool.reals[c.parse(r.address).value].num, 0, 0));
        ApplyAppend(v.reals, m.ureals, u);
      }
    }
  }

  /** The VIP that a batch changed. */
  lemma BatchRings(c: Config, s: Lb, k: VipKey, action: ModifyAction, rs: seq<NewReal>, s': Lb)
    requires c.ringSize >= 2 && RingsOk(c, s) && Covered(BooksOf(s)) && Covered(BooksOf(s'))
    requires k in s.vips && ModifyRealsStep(c, s, k, action, rs, s')
    ensures InSync(s'.vips[k], c.ringSize, c.murmur) && HashesOk(c, s'.pool, s'.vips[k].reals)
    ensures NamesAgree(s.pool, s'.pool)
  {
    var v, w0 := s.vips[k], Work(s.pool, s.vips[k].reals.Keys, []);
    var w := WorkOf(c, s, k, action, rs);
    BatchKeepsInSync(v, w.ureals, s'.vips[k], c.ringSize, c.murmur);
    BatchNames(c, action, w0, rs);
    assert Apply(v.reals, []) == v.reals;
    if action == Add {
      AddBatchHashes(c, v, s.pool, rs);
    } else {
      forall n: nat | IsActive(s'.vips[k].reals, n)
        ensures n in s'.pool.names && s'.vips[k].reals[n].hash == c.hash(s'.pool.names[n])
      {
        DelBatchReals(c, v, w0, rs, n);
        CoveredIsLive(BooksOf(s'), k, n);
      }
    }
  }

  lemma ModifyRealsRings(c: Config, s: Lb, k: VipKey, action: ModifyAction, rs: seq<NewReal>, s': Lb)
    requires c.ringSize >= 2 && RingsOk(c, s) && Covered(BooksOf(s)) && Covered(BooksOf(s'))
    requires ModifyRealsStep(c, s, k, action, rs, s')
    ensures RingsOk(c, s')
  {
    if k in s.vips {
      BatchRings(c, s, k, action, rs, s');
      hide Covered, NamesAgree, HashesOk, HasActive, RingOf, Batch, WorkOf, PushDelta, Diff;
      forall j | j in s'.vips
        ensures InSync(s'.vips[j], c.ringSize, c.murmur) && HashesOk(c, s'.pool, s'.vips[j].reals)
      {
        if j != k {
          HashesStay(c, s, s', j);
        }
      }
    }
  }

  // ---------------------------------------------------------------------
  // The kernel's copies
  // ---------------------------------------------------------------------

  /** The kernel's VIP table is the user-space table, key by key. */
  ghost predicate VipMapOk(c: Config, s: Lb) {
    EntriesOwn(c, s) && AllDefined(c, s) && DefsDiffer(c, s)
  }

  /** Every configured VIP finds its own number and flags in the kernel. */
  ghost predicate EntriesOwn(c: Config, s: Lb) {
    forall k :: k in s.vips ==> Def(c, k) in s.kernel.vipMap && s.kernel.vipMap[Def(c, k)] == MetaFor(s.vips[k])
  }

  ghost predicate AllDefined(c: Config, s: Lb) {
    forall d :: d in s.kernel.vipMap ==> DefinedByVip(c, s, d)
  }

  ghost predicate DefsDiffer(c: Config, s: Lb) {
    forall j, k :: j in s.vips && k in s.vips && j != k ==> Def(c, j) != Def(c, k)
  }

  /** Every entry of the kernel's VIP table is that of a configured VIP with those words. */
  ghost predicate EntriesOwned(c: Config, s: Lb) {
    forall d :: d in s.kernel.vipMap ==> OwnedByVip(c, s, d, s.kernel.vipMap[d])
  }

  ghost predicate OwnedByVip(c: Config, s: Lb, d: VipDef, meta: VipMeta) {
    exists k :: k in s.vips && Def(c, k) == d && MetaFor(s.vips[k]) == meta
  }

  ghost predicate DefinedByVip(c: Config, s: Lb, d: VipDef) {
    exists k :: k in s.vips && Def(c, k) == d
  }

  function Cell(c: Config, num: nat, pos: nat): nat {
    num * c.ringSize + pos
  }

  /** Once populated, the kernel's slice of a VIP is its ring. */
  ghost predicate SliceOk(c: Config, rings: map<nat, int>, v: VipState) {
    forall pos: nat :: pos < |v.ring| && v.ring[pos] != -1 ==>
      Cell(c, v.num, pos) in rings && rings[Cell(c, v.num, pos)] == v.ring[pos]
  }

  ghost predicate SlicesOk(c: Config, s: Lb) {
    forall k :: k in s.vips ==> SliceOk(c, s.kernel.rings, s.vips[k])
  }

  /** Cells of different VIPs or positions are different cells. */
  lemma SlicesDisjoint(c: Config, m: nat, p: nat, n: nat, q: nat)
    requires p < c.ringSize && q < c.ringSize && (m != n || p != q)
    ensures Cell(c, m, p) != Cell(c, n, q)
  {
    if Cell(c, m, p) == Cell(c, n, q) {
      DivModUnique(Cell(c, m, p), c.ringSize, m, p);
      DivModUnique(Cell(c, m, p), c.ringSize, n, q);
    }
  }

  /** And all of them are 32-bit keys. */
  lemma CellIsKey(c: Config, n: nat, p: nat)
    requires ConfigOk(c) && n < c.maxVips && p < c.ringSize
    ensures Cell(c, n, p) < U32
  {
  }

  /** Pushing the delta writes exactly the cells that changed. */
  lemma {:induction false} PushDiff(rings: map<nat, int>, base: nat, before: seq<int>, after: seq<int>, i: nat,
      cell: nat)
    requires |before| == |after| && i <= |after|
    ensures var r := PushDelta(rings, base, Diff(before, after, i));
      if base <= cell < base + i && before[cell - base] != after[cell - base]
      then cell in r && r[cell] == after[cell - base]
      else (cell in r <==> cell in rings) && (cell in rings ==> r[cell] == rings[cell])
  {
    if i > 0 {
      PushDiff(rings, base, before, after, i - 1, cell);
      var d, last := Diff(before, after, i - 1), RealPos(after[i - 1], i - 1);
      if before[i - 1] != after[i - 1] {
        assert (d + [last])[..|d + [last]| - 1] == d;
      }
    }
  }

  lemma OwnSlice(c: Config, rings: map<nat, int>, v: VipState, v': VipState)
    requires SliceOk(c, rings, v) && v'.num == v.num && |v'.ring| == |v.ring|
    ensures SliceOk(c, PushDelta(rings, v.num * c.ringSize, Diff(v.ring, v'.ring, |v'.ring|)), v')
  {
    forall pos: nat | pos < |v'.ring| && v'.ring[pos] != -1
      ensures var r := PushDelta(rings, v.num * c.ringSize, Diff(v.ring, v'.ring, |v'.ring|));
        Cell(c, v'.num, pos) in r && r[Cell(c, v'.num, pos)] == v'.ring[pos]
    {
      PushDiff(rings, v.num * c.ringSize, v.ring, v'.ring, |v'.ring|, Cell(c, v.num, pos));
    }
  }

  lemma OtherSlice(c: Config, rings: map<nat, int>, v: VipState, v': VipState, u: VipState)
    requires SliceOk(c, rings, u) && u.num != v.num && |v'.ring| == |v.ring| == |u.ring| == c.ringSize
    ensures SliceOk(c, PushDelta(rings, v.num * c.ringSize, Diff(v.ring, v'.ring, |v'.ring|)), u)
  {
    forall pos: nat | pos < |u.ring| && u.ring[pos] != -1
      ensures var r := PushDelta(rings, v.num * c.ringSize, Diff(v.ring, v'.ring, |v'.ring|));
        Cell(c, u.num, pos) in r && r[Cell(c, u.num, pos)] == u.ring[pos]
    {
      var cell, base := Cell(c, u.num, pos), v.num * c.ringSize;
      if base <= cell < base + c.ringSize {
        SlicesDisjoint(c, u.num, pos, v.num, cell - base);
      }
      PushDiff(rings, base, v.ring, v'.ring, |v'.ring|, cell);
    }
  }

  lemma ModifyRealsSlices(c: Config, s: Lb, k: VipKey, action: ModifyAction, rs: seq<NewReal>, s': Lb)
    requires c.ringSize >= 2 && ModifyRealsStep(c, s, k, action, rs, s')
    requires SlicesOk(c, s) && VipNumbersOk(c, s) && forall j :: j in s.vips ==> |s.vips[j].ring| == c.ringSize
    ensures SlicesOk(c, s')
  {
    if k in s.vips {
      hide WorkOf, PushDelta, Diff, SliceOk, RingOf, Apply;
      var v, v' := s.vips[k], s'.vips[k];
      forall j | j in s'.vips ensures SliceOk(c, s'.kernel.rings, s'.vips[j]) {
        if j == k {
          OwnSlice(c, s.kernel.rings, v, v');
        } else {
          OtherSlice(c, s.kernel.rings, v, v', s.vips[j]);
        }
      }
    }
  }

  /** A VIP with words of its own joins, here and in the kernel. */
  ghost predicate Joins(c: Config, s: Lb, k: VipKey, v: VipState, s': Lb) {
    && s'.vips == s.vips[k := v] && s'.kernel.vipMap == s.kernel.vipMap[Def(c, k) := MetaFor(v)]
    && k !in s.vips && FreshDef(c, s, k)
  }

  lemma JoinOwn(c: Config, s: Lb, k: VipKey, v: VipState, s': Lb)
    requires EntriesOwn(c, s) && Joins(c, s, k, v, s')
    ensures EntriesOwn(c, s')
  {
    hide Def, MetaFor;
  }

  lemma JoinDefined(c: Config, s: Lb, k: VipKey, v: VipState, s': Lb)
    requires AllDefined(c, s) && Joins(c, s, k, v, s')
    ensures AllDefined(c, s')
  {
    hide Def, MetaFor;
    forall d | d in s'.kernel.vipMap ensures DefinedByVip(c, s', d) {
      if d == Def(c, k) {
        assert k in s'.vips;
      } else {
        var j :| j in s.vips && Def(c, j) == d;
        assert j in s'.vips;
      }
    }
  }

  lemma JoinDiffer(c: Config, s: Lb, k: VipKey, v: VipState, s': Lb)
    requires DefsDiffer(c, s) && Joins(c, s, k, v, s')
    ensures DefsDiffer(c, s')
  {
    hide Def, MetaFor;
  }

  lemma AddVipMap(c: Config, s: Lb, k: VipKey, flags: bv32)
    requires VipMapOk(c, s) && FreshDef(c, s, k)
    ensures VipMapOk(c, DoAddVip(c, s, k, flags))
  {
    hide Def, MetaFor, EntriesOwn, AllDefined, DefsDiffer, EmptyRing;
    var s' := DoAddVip(c, s, k, flags);
    if c.parse(k.address).Some? && s.vipNums != [] && k !in s.vips {
      var v := s'.vips[k];
      assert Joins(c, s, k, v, s');
      hide DoAddVip, Joins;
      JoinOwn(c, s, k, v, s');
      JoinDefined(c, s, k, v, s');
      JoinDiffer(c, s, k, v, s');
    }
  }

  lemma DelVipMap(c: Config, s: Lb, k: VipKey, nums: seq<nat>)
    requires VipMapOk(c, s) && k in s.vips
    ensures VipMapOk(c, DoDelVip(c, s, k, nums))
  {
    hide Def, ReleaseAll, MetaFor;
    var s' := DoDelVip(c, s, k, nums);
    assert s'.vips == s.vips - {k} && s'.kernel.vipMap == s.kernel.vipMap - {Def(c, k)};
    hide DoDelVip;
    forall d | d in s'.kernel.vipMap ensures DefinedByVip(c, s', d) {
      var j :| j in s.vips && Def(c, j) == d;
      assert j in s'.vips;
    }
    hide DefinedByVip;
  }

  /** Same VIPs, same numbers and flags, same kernel table. */
  lemma SameVipMap(c: Config, s: Lb, s': Lb)
    requires VipMapOk(c, s) && s'.kernel.vipMap == s.kernel.vipMap && s'.vips.Keys == s.vips.Keys
    requires forall k :: k in s.vips ==> MetaFor(s'.vips[k]) == MetaFor(s.vips[k])
    ensures VipMapOk(c, s')
  {
    hide Def, MetaFor;
    forall d | d in s'.kernel.vipMap ensures DefinedByVip(c, s', d) {
      var j :| j in s.vips && Def(c, j) == d;
      assert j in s'.vips;
    }
  }

  lemma ReplaceVip(c: Config, s: Lb, k: VipKey, v: VipState)
    requires VipMapOk(c, s) && k in s.vips
    ensures VipMapOk(c, s.(vips := s.vips[k := v],
                           kernel := s.kernel.(vipMap := s.kernel.vipMap[Def(c, k) := MetaFor(v)])))
  {
    hide Def, MetaFor;
    var vips, vipMap := s.vips[k := v], s.kernel.vipMap[Def(c, k) := MetaFor(v)];
    var s' := s.(vips := vips, kernel := s.kernel.(vipMap := vipMap));
    assert vips.Keys == s.vips.Keys;
    forall d | d in vipMap ensures DefinedByVip(c, s', d) {
      assert DefinedByVip(c, s, d);
      var j :| j in s.vips && Def(c, j) == d;
      assert j in s'.vips;
    }
  }

  // ---------------------------------------------------------------------
  // Every entry has an owner, whatever is added
  // ---------------------------------------------------------------------

  /** A VIP's own entry is written; all other VIPs stay. */
  lemma WriteEntry(c: Config, s: Lb, k: VipKey, v: VipState, s': Lb)
    requires EntriesOwned(c, s)
    requires s'.vips == s.vips[k := v] && s'.kernel.vipMap == s.kernel.vipMap[Def(c, k) := MetaFor(v)]
    ensures EntriesOwned(c, s')
  {
    hide Def, MetaFor;
    forall d | d in s'.kernel.vipMap ensures OwnedByVip(c, s', d, s'.kernel.vipMap[d]) {
      if d == Def(c, k) {
        assert k in s'.vips;
      } else {
        assert OwnedByVip(c, s, d, s.kernel.vipMap[d]);
        var j :| j in s.vips && Def(c, j) == d && MetaFor(s.vips[j]) == s.kernel.vipMap[d];
        assert j in s'.vips;
      }
    }
  }

  lemma AddVipEntries(c: Config, s: Lb, k: VipKey, flags: bv32)
    requires EntriesOwned(c, s)
    ensures EntriesOwned(c, DoAddVip(c, s, k, flags))
  {
    hide Def, MetaFor, EntriesOwned, EmptyRing;
    var s' := DoAddVip(c, s, k, flags);
    if s' != s {
      WriteEntry(c, s, k, s'.vips[k], s');
    }
  }

  lemma ReplaceEntry(c: Config, s: Lb, k: VipKey, v: VipState)
    requires EntriesOwned(c, s) && k in s.vips
    ensures EntriesOwned(c, s.(vips := s.vips[k := v],
                               kernel := s.kernel.(vipMap := s.kernel.vipMap[Def(c, k) := MetaFor(v)])))
  {
    hide Def, MetaFor, EntriesOwned;
    WriteEntry(c, s, k, v, s.(vips := s.vips[k := v],
                              kernel := s.kernel.(vipMap := s.kernel.vipMap[Def(c, k) := MetaFor(v)])));
  }

  lemma DelVipEntries(c: Config, s: Lb, k: VipKey, nums: seq<nat>)
    requires EntriesOwned(c, s) && k in s.vips
    ensures EntriesOwned(c, DoDelVip(c, s, k, nums))
  {
    hide Def, ReleaseAll, MetaFor;
    var s' := DoDelVip(c, s, k, nums);
    assert s'.vips == s.vips - {k} && s'.kernel.vipMap == s.kernel.vipMap - {Def(c, k)};
    hide DoDelVip;
    forall d | d in s'.kernel.vipMap ensures OwnedByVip(c, s', d, s'.kernel.vipMap[d]) {
      assert OwnedByVip(c, s, d, s.kernel.vipMap[d]);
      var j :| j in s.vips && Def(c, j) == d && MetaFor(s.vips[j]) == s.kernel.vipMap[d];
      assert j in s'.vips;
    }
  }

  lemma SameEntries(c: Config, s: Lb, s': Lb)
    requires EntriesOwned(c, s) && s'.kernel.vipMap == s.kernel.vipMap && s'.vips.Keys == s.vips.Keys
    requires forall k :: k in s.vips ==> MetaFor(s'.vips[k]) == MetaFor(s.vips[k])
    ensures EntriesOwned(c, s')
  {
    hide Def, MetaFor;
    forall d | d in s'.kernel.vipMap ensures OwnedByVip(c, s', d, s'.kernel.vipMap[d]) {
      assert OwnedByVip(c, s, d, s.kernel.vipMap[d]);
      var j :| j in s.vips && Def(c, j) == d && MetaFor(s.vips[j]) == s.kernel.vipMap[d];
      assert j in s'.vips;
    }
  }

  // ---------------------------------------------------------------------
  // Two spellings of one VIP
  // ---------------------------------------------------------------------

  /**
   VIPs are told apart by the text of their address but looked up by its words: adding one
   leaves every VIP its kernel entry if and only if no other VIP has the same words.
   */
  lemma AddVipOwnIff(c: Config, s: Lb, k: VipKey, flags: bv32)
    requires VipMapOk(c, s) && VipNumbersOk(c, s)
    requires c.parse(k.address).Some? && s.vipNums != [] && k !in s.vips
    ensures EntriesOwn(c, DoAddVip(c, s, k, flags)) <==> FreshDef(c, s, k)
  {
    hide Def, VipMapOk, VipNumbersOk, EntriesOwn, DoAddVip;
    if j :| j in s.vips && j != k && Def(c, j) == Def(c, k) {
      ShadowedEntry(c, s, k, j, flags);
    } else {
      FreshKeepsEntries(c, s, k, flags);
    }
  }

  lemma ShadowedEntry(c: Config, s: Lb, k: VipKey, j: VipKey, flags: bv32)
    requires VipNumbersOk(c, s) && c.parse(k.address).Some? && s.vipNums != [] && k !in s.vips
    requires j in s.vips && Def(c, j) == Def(c, k)
    ensures !EntriesOwn(c, DoAddVip(c, s, k, flags))
  {
  }

  lemma FreshKeepsEntries(c: Config, s: Lb, k: VipKey, flags: bv32)
    requires VipMapOk(c, s) && FreshDef(c, s, k)
    ensures EntriesOwn(c, DoAddVip(c, s, k, flags))
  {
    hide DoAddVip, Def, MetaFor;
    AddVipMap(c, s, k, flags);
  }

  /** Deleting one of two such VIPs makes the other, still configured, unknown to the kernel. */
  lemma DelVipLosesTwin(c: Config, s: Lb, k: VipKey, j: VipKey, nums: seq<nat>)
    requires k in s.vips && j in s.vips && j != k && Def(c, j) == Def(c, k)
    ensures j in DoDelVip(c, s, k, nums).vips && Def(c, j) !in DoDelVip(c, s, k, nums).kernel.vipMap
  {
  }

  // ---------------------------------------------------------------------
  // Two spellings of one prefix
  // ---------------------------------------------------------------------

  /** Every rule finds its number in the kernel. */
  ghost predicate RulesFound(s: Lb) {
    forall r :: r in s.rules ==> KeyOf(r) in s.kernel.rules && s.kernel.rules[KeyOf(r)] == s.rules[r]
  }

  /**
   Rules are told apart by the whole address but looked up by its leading bits: a new rule
   leaves every rule its number if and only if the others with the same bits have that number.
   */
  lemma AddRuleFoundIff(s: Lb, src: Net, dst: Addr)
    requires RulesFound(s)
    ensures RulesFound(AddRule(s, src, dst)) <==>
      forall r :: r in s.rules && r != src && KeyOf(r) == KeyOf(src) ==> s.rules[r] == NumberFor(s.pool, dst)
  {
    hide KeyOf, Acquire, NumberFor;
    var s', n := AddRule(s, src, dst), NumberFor(s.pool, dst);
    forall r | r in s.rules && r != src && KeyOf(r) == KeyOf(src) && s.rules[r] != n ensures !RulesFound(s') {
      assert r in s'.rules && s'.rules[r] == s.rules[r];
    }
  }

  /** Deleting one of two such rules makes the other, still in the table, unknown to the kernel. */
  lemma DelRuleLosesTwin(s: Lb, src: Net, r: Net)
    requires src in s.rules && r in s.rules && r != src && KeyOf(r) == KeyOf(src)
    ensures r in DelRule(s, src).rules && KeyOf(r) !in DelRule(s, src).kernel.rules
  {
    hide KeyOf, ReleaseNumber;
  }

  ghost predicate AllMasked(srcs: set<Net>) {
    forall r :: r in srcs ==> Masked(r)
  }

  lemma AddRuleMasked(s: Lb, src: Net, dst: Addr)
    requires RulesFound(s) && AllMasked(s.rules.Keys) && Masked(src)
    ensures RulesFound(AddRule(s, src, dst)) && AllMasked(AddRule(s, src, dst).rules.Keys)
  {
    AddRuleFoundIff(s, src, dst);
    hide RulesFound, KeyOf, Masked, Acquire, NumberFor;
    assert AddRule(s, src, dst).rules.Keys == s.rules.Keys + {src};
    forall r | r in s.rules && r != src ensures KeyOf(r) != KeyOf(src) {
      if KeyOf(r) == KeyOf(src) { MaskedKeysDiffer(r, src); }
    }
  }

  lemma DelRuleMasked(s: Lb, src: Net)
    requires RulesFound(s) && AllMasked(s.rules.Keys)
    ensures RulesFound(DelRule(s, src)) && AllMasked(DelRule(s, src).rules.Keys)
  {
    hide KeyOf, Masked, ReleaseNumber;
    if src in s.rules {
      forall r | r in s.rules && r != src ensures KeyOf(r) != KeyOf(src) {
        if KeyOf(r) == KeyOf(src) { MaskedKeysDiffer(r, src); }
      }
    }
  }

  lemma MaskedMember(srcs: set<Net>, r: Net)
    requires AllMasked(srcs) && r in srcs
    ensures Masked(r)
  {
  }

  lemma SameRulesFound(s: Lb, s': Lb)
    requires s'.rules == s.rules && s'.kernel.rules == s.kernel.rules
    ensures RulesFound(s) ==> RulesFound(s')
  {
    hide KeyOf;
  }

  lemma {:induction false} AddRulesMasked(c: Config, s: Lb, srcs: seq<Net>, dst: Addr)
    requires RulesFound(s) && AllMasked(s.rules.Keys) && AllMasked(Elements(srcs))
    ensures var s' := AddRules(c, s, srcs, dst).0; RulesFound(s') && AllMasked(s'.rules.Keys)
  {
    if srcs != [] {
      var front, src := srcs[..|srcs| - 1], srcs[|srcs| - 1];
      assert src in Elements(srcs) && Elements(front) <= Elements(srcs) && AllMasked(Elements(front));
      AddRulesMasked(c, s, front, dst);
      hide Masked, Acquire, NumberFor, AddRule, KeyOf;
      var s1, s2 := AddRules(c, s, front, dst).0, AddRules(c, s, srcs, dst).0;
      assert s2 == s1 || s2 == s1.(pool := Acquire(s1.pool, dst)) || s2 == AddRule(s1, src, dst);
      hide AddRules, RulesFound, AllMasked;
      assert Masked(src) by { MaskedMember(Elements(srcs), src); }
      AddRuleMasked(s1, src, dst);
      SameRulesFound(s1, s1.(pool := Acquire(s1.pool, dst)));
    }
  }

  lemma {:induction false} DelRulesMasked(s: Lb, srcs: seq<Net>)
    requires RulesFound(s) && AllMasked(s.rules.Keys)
    ensures RulesFound(DelRules(s, srcs)) && AllMasked(DelRules(s, srcs).rules.Keys)
  {
    if srcs != [] {
      DelRulesMasked(s, srcs[..|srcs| - 1]);
      hide RulesFound, AllMasked, DelRule;
      DelRuleMasked(DelRules(s, srcs[..|srcs| - 1]), srcs[|srcs| - 1]);
    }
  }
}
