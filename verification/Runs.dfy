/**
 Runs of control-plane calls. What holds after any calls whatsoever: the partition of the
 numbers and the order in which they are reused. What holds as long as no deletion batch
 repeats an address: no number in use is recycled. And exactly when reference counts stay exact.
 */
module Runs {
  import opened Residues
  import opened Vips
  import opened Allocator
  import opened Prefixes
  import opened ControlPlane
  import opened RefSafety
  import opened RefLeaks
  import opened TableSafety

  /** The states between any calls, from the initial state on. */
  ghost predicate Calls(c: Config, ops: seq<Op>, ss: seq<Lb>)
    requires c.ringSize >= 2
  {
    && |ss| == |ops| + 1 && ss[0] == Init(c)
    && forall i :: 0 <= i < |ops| ==> Step(c, ss[i], ops[i], ss[i + 1])
  }

  // ---------------------------------------------------------------------
  // After any calls
  // ---------------------------------------------------------------------

  /**
   Free and live real numbers partition 0..maxReals-1, and a live number leads to its address
   here and in the kernel; VIP numbers are partitioned likewise; whatever number is stored is a
   number of the pool; kernel rules are those of source rules.
   */
  ghost predicate NumbersOk(c: Config, s: Lb) {
    && PoolOk(s.pool) && s.pool.max == c.maxReals && VipNumbersOk(c, s)
    && VipsBelow(s.vips, c.maxReals) && RulesBelow(s) && RulesOwned(s)
  }

  ghost predicate VipsBelow(vips: map<VipKey, VipState>, max: nat) {
    forall k :: k in vips ==> KeysBelow(vips[k].reals, max)
  }

  ghost predicate KeysBelow(reals: Reals, max: nat) {
    forall n :: n in reals ==> n < max
  }

  ghost predicate RulesBelow(s: Lb) {
    (forall r :: r in s.rules ==> s.rules[r] < s.pool.max) && BlankBelow(s.pool)
  }

  ghost predicate BlankBelow(p: Pool) {
    forall n :: n in p.blank ==> n < p.max
  }

  ghost predicate NumsBelow(us: seq<UpdateReal>, max: nat) {
    forall i :: 0 <= i < |us| ==> us[i].updatedReal.num < max
  }

  lemma PoolStepBelow(p: Pool, a: Addr)
    requires PoolOk(p)
    ensures Acquire(p, a).blank <= p.blank && Release(p, a).blank <= p.blank
    ensures Acquire(p, a).max == p.max && Release(p, a).max == p.max
    ensures a in p.reals ==> p.reals[a].num < p.max
    ensures NumberFor(p, a) != p.max ==> NumberFor(p, a) < p.max
  {
    if a !in p.reals && p.free != [] {
      assert p.free[0] in p.free;
    }
  }

  lemma {:induction false} BatchBelow(c: Config, action: ModifyAction, w: Work, rs: seq<NewReal>)
    requires PoolOk(w.pool) && NumsBelow(w.ureals, w.pool.max)
    ensures var w' := DoReals(c, action, w, rs);
      w'.pool.max == w.pool.max && w'.pool.blank <= w.pool.blank && NumsBelow(w'.ureals, w.pool.max)
  {
    if rs != [] {
      var front, r := rs[..|rs| - 1], rs[|rs| - 1];
      BatchBelow(c, action, w, front);
      BatchNames(c, action, w, front);
      var w1 := DoReals(c, action, w, front);
      hide PoolOk, Acquire, Release, NumberFor, NamesGrow;
      if c.parse(r.address).Some? {
        PoolStepBelow(w1.pool, c.parse(r.address).value);
      }
    }
  }

  lemma {:induction false} ApplyBelow(reals: Reals, us: seq<UpdateReal>, max: nat)
    requires KeysBelow(reals, max) && NumsBelow(us, max)
    ensures KeysBelow(Apply(reals, us), max)
  {
    if us != [] {
      ApplyBelow(reals, us[..|us| - 1], max);
    }
  }

  lemma ModifyRealsBelow(c: Config, s: Lb, k: VipKey, action: ModifyAction, rs: seq<NewReal>, s': Lb)
    requires c.ringSize >= 2 && NumbersOk(c, s) && k in s.vips && ModifyRealsStep(c, s, k, action, rs, s')
    ensures VipsBelow(s'.vips, c.maxReals) && RulesBelow(s')
  {
    var w := Work(s.pool, s.vips[k].reals.Keys, []);
    BatchBelow(c, action, w, rs);
    hide DoReals, Apply, RingOf, PushDelta, Diff, VipNumbersOk, KeysBelow;
    ApplyBelow(s.vips[k].reals, DoReals(c, action, w, rs).ureals, c.maxReals);
  }

  lemma {:induction false} AddRulesBelow(c: Config, s: Lb, srcs: seq<Net>, dst: Addr)
    requires PoolOk(s.pool) && RulesBelow(s)
    ensures RulesBelow(AddRules(c, s, srcs, dst).0) && AddRules(c, s, srcs, dst).0.pool.blank <= s.pool.blank
  {
    if srcs != [] {
      AddRulesBelow(c, s, srcs[..|srcs| - 1], dst);
      AddRulesNames(c, s, srcs[..|srcs| - 1], dst);
      hide Acquire, NumberFor, PoolOk, NamesGrow, RulesOnly, KeyOf;
      var s1, s2, src := AddRules(c, s, srcs[..|srcs| - 1], dst).0, AddRules(c, s, srcs, dst).0, srcs[|srcs| - 1];
      assert s2 == s1 || s2 == s1.(pool := Acquire(s1.pool, dst))
        || (s2 == AddRule(s1, src, dst) && NumberFor(s1.pool, dst) != s1.pool.max);
      hide AddRules, RulesBelow, AddRule;
      AddRuleBelow(s1, src, dst);
    }
  }

  lemma AddRuleBelow(s: Lb, src: Net, dst: Addr)
    requires PoolOk(s.pool) && RulesBelow(s)
    ensures RulesBelow(s.(pool := Acquire(s.pool, dst))) && Acquire(s.pool, dst).blank <= s.pool.blank
    ensures AddRule(s, src, dst).pool == Acquire(s.pool, dst)
    ensures NumberFor(s.pool, dst) != s.pool.max ==> RulesBelow(AddRule(s, src, dst))
  {
    PoolStepBelow(s.pool, dst);
    hide Acquire, NumberFor, PoolOk, KeyOf;
  }

  lemma {:induction false} DelRulesBelow(s: Lb, srcs: seq<Net>)
    requires PoolOk(s.pool) && RulesBelow(s)
    ensures RulesBelow(DelRules(s, srcs))
  {
    if srcs != [] {
      DelRulesBelow(s, srcs[..|srcs| - 1]);
      DelRulesNames(s, srcs[..|srcs| - 1]);
      var s1, src := DelRules(s, srcs[..|srcs| - 1]), srcs[|srcs| - 1];
      hide Release, PoolOk, NamesGrow, RulesOnly, KeyOf;
      if src in s1.rules && s1.rules[src] in s1.pool.names {
        PoolStepBelow(s1.pool, s1.pool.names[s1.rules[src]]);
      }
    }
  }

  lemma {:induction false} ReleaseAllBelow(p: Pool, nums: seq<nat>)
    requires PoolOk(p) && BlankBelow(p) && forall n :: n in nums ==> n < p.max
    ensures BlankBelow(ReleaseAll(p, nums))
  {
    if nums != [] {
      var front, n := nums[..|nums| - 1], nums[|nums| - 1];
      assert n in nums && forall m :: m in front ==> m in nums;
      ReleaseAllBelow(p, front);
      ReleaseAllNames(p, front);
      var q := ReleaseAll(p, front);
      hide Release, PoolOk, NamesGrow;
      if n in q.names {
        PoolStepBelow(q, q.names[n]);
      }
    }
  }

  lemma {:induction false} QuicBelow(c: Config, action: ModifyAction, s: Lb, qs: seq<QuicReal>)
    requires PoolOk(s.pool) && RulesBelow(s)
    ensures RulesBelow(QuicAll(c, action, s, qs)) && QuicAll(c, action, s, qs).pool.blank <= s.pool.blank
  {
    if qs != [] {
      QuicBelow(c, action, s, qs[..|qs| - 1]);
      QuicNames(c, action, s, qs[..|qs| - 1]);
      hide Acquire, Release, NumberFor, PoolOk, NamesGrow;
      if c.parse(qs[|qs| - 1].address).Some? {
        PoolStepBelow(QuicAll(c, action, s, qs[..|qs| - 1]).pool, c.parse(qs[|qs| - 1].address).value);
      }
    }
  }

  lemma InitNumbers(c: Config)
    ensures NumbersOk(c, Init(c))
  {
    NewPoolOk(c.maxReals);
    var s := Init(c);
    forall n: nat | n < c.maxVips ensures n in s.vipNums {
      assert s.vipNums[n] == n;
    }
  }

  lemma StepKeepsNumbers(c: Config, s: Lb, op: Op, s': Lb)
    requires c.ringSize >= 2 && NumbersOk(c, s) && Step(c, s, op, s')
    ensures NumbersOk(c, s')
  {
    hide PoolOk, VipNumbersOk, DoReals, PushDelta, Diff, Batch, AddRules, DelRules, QuicAll, ReleaseAll, Def, NewFlags;
    hide RulesBelow, KeysBelow, ReadReals, ReadRules;
    match op
    case AddVip(k, flags) =>
      AddVipNumbers(c, s, k, flags);
      AddVipBelow(c, s, k, flags);
    case DelVip(k) => DelVipKeepsNumbers(c, s, k, s');
    case ModifyVip(k, flags, on) =>
      SameNumbersOk(c, s, s');
      SameBelow(s, s');
    case ModifyReals(k, action, rs) =>
      if k in s.vips {
        BatchNames(c, action, Work(s.pool, s.vips[k].reals.Keys, []), rs);
        BatchKeepsVipNumbers(c, s, k, action, rs, s');
        ModifyRealsBelow(c, s, k, action, rs, s');
      }
    case AddSrcRules(srcs, dst) =>
      AddRulesNames(c, s, srcs, dst);
      AddRulesBelow(c, s, srcs, dst);
      SameNumbersOk(c, s, s');
    case DelSrcRules(srcs) =>
      DelRulesNames(s, srcs);
      DelRulesBelow(s, srcs);
      SameNumbersOk(c, s, s');
    case ClearSrcRules =>
      var srcs :| Distinct(srcs) && Elements(srcs) == s.rules.Keys && s' == DelRules(s, srcs);
      DelRulesNames(s, srcs);
      DelRulesBelow(s, srcs);
      SameNumbersOk(c, s, s');
    case ModifyQuic(action, qs) =>
      QuicNames(c, action, s, qs);
      QuicBelow(c, action, s, qs);
      SameNumbersOk(c, s, s');
    case GetReals(k) => ReadRealsNumbers(c, s, k);
    case GetSrcRules => ReadRulesNumbers(c, s);
  }

  lemma ReadRealsNumbers(c: Config, s: Lb, k: VipKey)
    requires NumbersOk(c, s)
    ensures NumbersOk(c, ReadReals(s, k))
  {
    if k in s.vips {
      assert KeysBelow(s.vips[k].reals, c.maxReals);
      ReadKeepsNumbers(c, s, s.vips[k].reals.Keys);
      hide NumbersOk, Subscript;
    }
  }

  lemma ReadRulesNumbers(c: Config, s: Lb)
    requires NumbersOk(c, s)
    ensures NumbersOk(c, ReadRules(s))
  {
    ReadKeepsNumbers(c, s, s.rules.Values);
    hide NumbersOk, Subscript;
  }

  lemma AddVipBelow(c: Config, s: Lb, k: VipKey, flags: bv32)
    requires VipsBelow(s.vips, c.maxReals) && RulesBelow(s)
    ensures VipsBelow(DoAddVip(c, s, k, flags).vips, c.maxReals) && RulesBelow(DoAddVip(c, s, k, flags))
  {
  }

  lemma SameBelow(s: Lb, s': Lb)
    requires RulesBelow(s) && s'.pool == s.pool && s'.rules == s.rules
    ensures RulesBelow(s')
  {
  }

  /** Reading numbers that are stored somewhere. */
  lemma ReadKeepsNumbers(c: Config, s: Lb, nums: set<nat>)
    requires NumbersOk(c, s)
    requires forall n :: n in nums ==> n < c.maxReals
    ensures NumbersOk(c, s.(pool := Subscript(s.pool, nums)))
  {
    hide VipNumbersOk, RulesOwned;
    var s' := s.(pool := Subscript(s.pool, nums));
    SameNumbersOk(c, s, s');
    assert RulesOwned(s') by { SameOwners(s, s'); }
  }

  lemma SameOwners(s: Lb, s': Lb)
    requires RulesOwned(s) && s'.rules == s.rules && s'.kernel.rules == s.kernel.rules
    ensures RulesOwned(s')
  {
  }

  lemma DelVipKeepsNumbers(c: Config, s: Lb, k: VipKey, s': Lb)
    requires NumbersOk(c, s) && DelVipStep(c, s, k, s')
    ensures NumbersOk(c, s')
  {
    hide PoolOk, VipNumbersOk, ReleaseAll, Def, RulesOwned;
    if k in s.vips {
      var nums: seq<nat> :| Enumerates(nums, s.vips[k].reals.Keys) && s' == DoDelVip(c, s, k, nums);
      DelVipNumbers(c, s, k, nums);
      ReleaseAllNames(s.pool, nums);
      assert forall n :: n in nums ==> n in Elements(nums);
      ReleaseAllBelow(s.pool, nums);
      SameOwners(s, s');
    }
  }

  lemma BatchKeepsVipNumbers(c: Config, s: Lb, k: VipKey, action: ModifyAction, rs: seq<NewReal>, s': Lb)
    requires c.ringSize >= 2 && k in s.vips && VipNumbersOk(c, s) && ModifyRealsStep(c, s, k, action, rs, s')
    ensures VipNumbersOk(c, s')
  {
    hide VipNumbersOk, DoReals, Apply, RingOf, PushDelta, Diff;
    assert s'.vips.Keys == s.vips.Keys;
    SameNumbersOk(c, s, s');
  }

  lemma BlankIsFree(c: Config, s: Lb)
    requires NumbersOk(c, s)
    ensures forall n :: n in s.pool.blank ==> n in s.pool.free
  {
  }

  /** After any calls numbers are right, and only free numbers have an empty address. */
  lemma {:induction false} CallsKeepNumbers(c: Config, ops: seq<Op>, ss: seq<Lb>, i: nat)
    requires c.ringSize >= 2 && Calls(c, ops, ss) && i < |ss|
    ensures NumbersOk(c, ss[i]) && forall n :: n in ss[i].pool.blank ==> n in ss[i].pool.free
  {
    hide NumbersOk, Step;
    assert NumbersOk(c, ss[i]) ==> forall n :: n in ss[i].pool.blank ==> n in ss[i].pool.free by {
      if NumbersOk(c, ss[i]) { BlankIsFree(c, ss[i]); }
    }
    if i == 0 {
      InitNumbers(c);
    } else {
      CallsKeepNumbers(c, ops, ss, i - 1);
      StepKeepsNumbers(c, ss[i - 1], ops[i - 1], ss[i]);
    }
  }

  // ---------------------------------------------------------------------
  // Addresses of VIPs
  // ---------------------------------------------------------------------

  ghost predicate VipsParse(c: Config, s: Lb) {
    forall k :: k in s.vips ==> c.parse(k.address).Some?
  }

  lemma StepKeepsParsed(c: Config, s: Lb, op: Op, s': Lb)
    requires c.ringSize >= 2 && PoolOk(s.pool) && VipsParse(c, s) && Step(c, s, op, s')
    ensures VipsParse(c, s')
  {
    hide PoolOk, DoReals, PushDelta, Diff, Batch, AddRules, DelRules, QuicAll, ReleaseAll, Def, NewFlags;
    match op
    case AddSrcRules(srcs, dst) => AddRulesNames(c, s, srcs, dst);
    case DelSrcRules(srcs) => DelRulesNames(s, srcs);
    case ClearSrcRules =>
      var srcs :| Distinct(srcs) && Elements(srcs) == s.rules.Keys && s' == DelRules(s, srcs);
      DelRulesNames(s, srcs);
    case ModifyQuic(action, qs) => QuicNames(c, action, s, qs);
    case _ =>
  }

  /** Only VIPs with an address are ever configured. */
  lemma {:induction false} CallsKeepParsed(c: Config, ops: seq<Op>, ss: seq<Lb>, i: nat)
    requires c.ringSize >= 2 && Calls(c, ops, ss) && i < |ss|
    ensures VipsParse(c, ss[i])
  {
    if i > 0 {
      CallsKeepNumbers(c, ops, ss, i - 1);
      CallsKeepParsed(c, ops, ss, i - 1);
      assert PoolOk(ss[i - 1].pool);
      hide NumbersOk, PoolOk, Step, VipsParse;
      StepKeepsParsed(c, ss[i - 1], ops[i - 1], ss[i]);
    }
  }

  // ---------------------------------------------------------------------
  // Masked prefixes
  // ---------------------------------------------------------------------

  /** The source prefixes added have no bits after the prefix. */
  ghost predicate MaskedNets(ops: seq<Op>) {
    forall i :: 0 <= i < |ops| && ops[i].AddSrcRules? ==> AllMasked(Elements(ops[i].srcs))
  }

  lemma StepKeepsMasked(c: Config, s: Lb, op: Op, s': Lb)
    requires c.ringSize >= 2 && PoolOk(s.pool) && Step(c, s, op, s') && RulesFound(s) && AllMasked(s.rules.Keys)
    requires op.AddSrcRules? ==> AllMasked(Elements(op.srcs))
    ensures RulesFound(s') && AllMasked(s'.rules.Keys)
  {
    hide PoolOk, DoReals, PushDelta, Diff, Batch, AddRules, DelRules, QuicAll, ReleaseAll, Def, NewFlags, KeyOf, Masked;
    match op
    case AddSrcRules(srcs, dst) => AddRulesMasked(c, s, srcs, dst);
    case DelSrcRules(srcs) => DelRulesMasked(s, srcs);
    case ClearSrcRules =>
      var srcs :| Distinct(srcs) && Elements(srcs) == s.rules.Keys && s' == DelRules(s, srcs);
      DelRulesMasked(s, srcs);
    case ModifyQuic(action, qs) => QuicNames(c, action, s, qs);
    case _ =>
  }

  /** After any calls, as long as the prefixes added are masked, every rule finds its number in the kernel. */
  lemma {:induction false} CallsKeepMasked(c: Config, ops: seq<Op>, ss: seq<Lb>, i: nat)
    requires c.ringSize >= 2 && Calls(c, ops, ss) && MaskedNets(ops) && i < |ss|
    ensures RulesFound(ss[i]) && AllMasked(ss[i].rules.Keys)
  {
    if i > 0 {
      CallsKeepNumbers(c, ops, ss, i - 1);
      CallsKeepMasked(c, ops, ss, i - 1);
      assert PoolOk(ss[i - 1].pool);
      hide NumbersOk, PoolOk, Step, RulesFound, AllMasked;
      StepKeepsMasked(c, ss[i - 1], ops[i - 1], ss[i]);
    }
  }

  // ---------------------------------------------------------------------
  // VIP numbers, first released, first reused
  // ---------------------------------------------------------------------

  /** The VIP number a call takes, if any. */
  ghost function VipIssued(c: Config, s: Lb, op: Op): seq<nat> {
    if op.AddVip? && c.parse(op.key.address).Some? && s.vipNums != [] && op.key !in s.vips then [s.vipNums[0]] else []
  }

  /** The VIP number a call gives back, if any. */
  ghost function VipReturned(s: Lb, op: Op): seq<nat> {
    if op.DelVip? && op.key in s.vips then [s.vips[op.key].num] else []
  }

  ghost function AllVipIssued(c: Config, ops: seq<Op>, ss: seq<Lb>, n: nat): seq<nat>
    requires n <= |ops| < |ss|
  {
    if n == 0 then [] else AllVipIssued(c, ops, ss, n - 1) + VipIssued(c, ss[n - 1], ops[n - 1])
  }

  ghost function AllVipReturned(ops: seq<Op>, ss: seq<Lb>, n: nat): seq<nat>
    requires n <= |ops| < |ss|
  {
    if n == 0 then [] else AllVipReturned(ops, ss, n - 1) + VipReturned(ss[n - 1], ops[n - 1])
  }

  lemma StepVipNumbers(c: Config, s: Lb, op: Op, s': Lb)
    requires c.ringSize >= 2 && Step(c, s, op, s') && PoolOk(s.pool)
    ensures s.vipNums + VipReturned(s, op) == VipIssued(c, s, op) + s'.vipNums
  {
    hide ReleaseAll, DoReals, PushDelta, Diff, Batch, PoolOk, AddRules, DelRules, QuicAll, Def;
    match op
    case AddSrcRules(srcs, dst) => AddRulesNames(c, s, srcs, dst);
    case DelSrcRules(srcs) => DelRulesNames(s, srcs);
    case ClearSrcRules =>
      var srcs :| Distinct(srcs) && Elements(srcs) == s.rules.Keys && s' == DelRules(s, srcs);
      DelRulesNames(s, srcs);
    case ModifyQuic(action, qs) => QuicNames(c, action, s, qs);
    case _ =>
  }

  lemma PoolOfNumbers(c: Config, s: Lb)
    requires NumbersOk(c, s)
    ensures PoolOk(s.pool)
  {
  }

  /**
   Over any calls the VIP numbers given out are, in order, 0, 1, 2, ... followed by those
   given back since.
   */
  lemma {:induction false} VipNumbersInOrder(c: Config, ops: seq<Op>, ss: seq<Lb>, n: nat)
    requires c.ringSize >= 2 && Calls(c, ops, ss) && n <= |ops|
    ensures seq(c.maxVips, i => i) + AllVipReturned(ops, ss, n) == AllVipIssued(c, ops, ss, n) + ss[n].vipNums
  {
    if n > 0 {
      hide Step, NumbersOk, PoolOk;
      VipNumbersInOrder(c, ops, ss, n - 1);
      CallsKeepNumbers(c, ops, ss, n - 1);
      assert PoolOk(ss[n - 1].pool) by { PoolOfNumbers(c, ss[n - 1]); }
      assert Step(c, ss[n - 1], ops[n - 1], ss[n - 1 + 1]);
      StepVipNumbers(c, ss[n - 1], ops[n - 1], ss[n]);
      hide VipIssued, VipReturned, Calls;
      Splice(seq(c.maxVips, i => i), AllVipReturned(ops, ss, n - 1), AllVipIssued(c, ops, ss, n - 1), ss[n - 1].vipNums,
             VipReturned(ss[n - 1], ops[n - 1]), VipIssued(c, ss[n - 1], ops[n - 1]), ss[n].vipNums);
    }
  }

  // ---------------------------------------------------------------------
  // Real numbers, first released, first reused
  // ---------------------------------------------------------------------

  lemma {:induction false} DoAllConcat(p: Pool, a: seq<PoolOp>, b: seq<PoolOp>)
    ensures DoAll(p, a + b) == DoAll(DoAll(p, a), b)
    decreases a
  {
    if a == [] {
      assert a + b == b;
    } else {
      assert (a + b)[1..] == a[1..] + b;
      DoAllConcat(Do(p, a[0]), a[1..], b);
    }
  }

  lemma DoAllThen(p: Pool, a: seq<PoolOp>, op: PoolOp)
    ensures DoAll(p, a + [op]) == Do(DoAll(p, a), op)
  {
    DoAllConcat(p, a, [op]);
    assert DoAll(DoAll(p, a), [op]) == DoAll(Do(DoAll(p, a), op), []);
  }

  /** A batch takes and releases references one address at a time. */
  lemma {:induction false} BatchPoolOps(c: Config, action: ModifyAction, w: Work, rs: seq<NewReal>)
      returns (pops: seq<PoolOp>)
    ensures DoReals(c, action, w, rs).pool == DoAll(w.pool, pops)
  {
    if rs == [] {
      return [];
    }
    var front, r := rs[..|rs| - 1], rs[|rs| - 1];
    pops := BatchPoolOps(c, action, w, front);
    var w1 := DoReals(c, action, w, front);
    hide DoAll, DoReals, Acquire, Release;
    if c.parse(r.address).Some? && DoOne(c, action, w1, r).pool != w1.pool {
      var a := c.parse(r.address).value;
      var op := if action == Add then Take(a) else GiveBack(a);
      DoAllThen(w.pool, pops, op);
      pops := pops + [op];
    }
    assert DoReals(c, action, w, rs) == DoOne(c, action, w1, r) by { DoRealsNext(c, action, w, rs); }
  }

  lemma DoRealsNext(c: Config, action: ModifyAction, w: Work, rs: seq<NewReal>)
    requires rs != []
    ensures DoReals(c, action, w, rs) == DoOne(c, action, DoReals(c, action, w, rs[..|rs| - 1]), rs[|rs| - 1])
  {
  }

  lemma {:induction false} ReleasePoolOps(p: Pool, nums: seq<nat>) returns (pops: seq<PoolOp>)
    ensures ReleaseAll(p, nums) == DoAll(p, pops)
  {
    if nums == [] {
      return [];
    }
    pops := ReleasePoolOps(p, nums[..|nums| - 1]);
    var q, n := ReleaseAll(p, nums[..|nums| - 1]), nums[|nums| - 1];
    hide DoAll, Release;
    var op := if n in q.names then GiveBack(q.names[n]) else Read({n});
    DoAllThen(p, pops, op);
    pops := pops + [op];
  }

  lemma {:induction false} AddRulesPoolOps(c: Config, s: Lb, srcs: seq<Net>, dst: Addr) returns (pops: seq<PoolOp>)
    ensures AddRules(c, s, srcs, dst).0.pool == DoAll(s.pool, pops)
  {
    if srcs == [] {
      return [];
    }
    pops := AddRulesPoolOps(c, s, srcs[..|srcs| - 1], dst);
    hide DoAll, Acquire, NumberFor;
    var s1 := AddRules(c, s, srcs[..|srcs| - 1], dst).0;
    if AddRules(c, s, srcs, dst).0.pool != s1.pool {
      DoAllThen(s.pool, pops, Take(dst));
      pops := pops + [Take(dst)];
    }
  }

  lemma {:induction false} DelRulesPoolOps(s: Lb, srcs: seq<Net>) returns (pops: seq<PoolOp>)
    ensures DelRules(s, srcs).pool == DoAll(s.pool, pops)
  {
    if srcs == [] {
      return [];
    }
    pops := DelRulesPoolOps(s, srcs[..|srcs| - 1]);
    hide DoAll, Release;
    var s1, src := DelRules(s, srcs[..|srcs| - 1]), srcs[|srcs| - 1];
    if src in s1.rules {
      var n := s1.rules[src];
      var op := if n in s1.pool.names then GiveBack(s1.pool.names[n]) else Read({n});
      DoAllThen(s.pool, pops, op);
      pops := pops + [op];
    }
  }

  lemma {:induction false} QuicPoolOps(c: Config, action: ModifyAction, s: Lb, qs: seq<QuicReal>)
      returns (pops: seq<PoolOp>)
    ensures QuicAll(c, action, s, qs).pool == DoAll(s.pool, pops)
  {
    if qs == [] {
      return [];
    }
    pops := QuicPoolOps(c, action, s, qs[..|qs| - 1]);
    hide DoAll, Acquire, Release, NumberFor;
    var s1, q := QuicAll(c, action, s, qs[..|qs| - 1]), qs[|qs| - 1];
    if QuicOne(c, action, s1, q).pool != s1.pool {
      var a := c.parse(q.address).value;
      var op := if action == Add then Take(a) else GiveBack(a);
      DoAllThen(s.pool, pops, op);
      pops := pops + [op];
    }
  }

  lemma DoAllOne(p: Pool, op: PoolOp)
    ensures DoAll(p, [op]) == Do(p, op)
  {
    assert DoAll(p, [op]) == DoAll(Do(p, op), []);
  }

  /** Every call is a sequence of references taken and given back, and of numbers read. */
  lemma StepIsPoolRun(c: Config, s: Lb, op: Op, s': Lb) returns (pops: seq<PoolOp>)
    requires c.ringSize >= 2 && Step(c, s, op, s')
    ensures s'.pool == DoAll(s.pool, pops)
  {
    hide DoReals, PushDelta, Diff, Batch, AddRules, DelRules, QuicAll, ReleaseAll, Def, NewFlags;
    pops := [];
    match op
    case AddVip(k, flags) =>
    case ModifyVip(k, flags, on) =>
    case DelVip(k) =>
      if k in s.vips {
        var nums :| Enumerates(nums, s.vips[k].reals.Keys) && s' == DoDelVip(c, s, k, nums);
        pops := ReleasePoolOps(s.pool, nums);
      }
    case ModifyReals(k, action, rs) =>
      if k in s.vips {
        pops := BatchPoolOps(c, action, Work(s.pool, s.vips[k].reals.Keys, []), rs);
      }
    case AddSrcRules(srcs, dst) => pops := AddRulesPoolOps(c, s, srcs, dst);
    case DelSrcRules(srcs) => pops := DelRulesPoolOps(s, srcs);
    case ClearSrcRules =>
      var srcs :| Distinct(srcs) && Elements(srcs) == s.rules.Keys && s' == DelRules(s, srcs);
      pops := DelRulesPoolOps(s, srcs);
    case ModifyQuic(action, qs) => pops := QuicPoolOps(c, action, s, qs);
    case GetReals(k) =>
      if k in s.vips {
        pops := [Read(s.vips[k].reals.Keys)];
        DoAllOne(s.pool, pops[0]);
      }
    case GetSrcRules =>
      pops := [Read(s.rules.Values)];
      DoAllOne(s.pool, pops[0]);
  }

  /** The references taken and given back by the calls so far. */
  lemma {:induction false} CallsArePoolRun(c: Config, ops: seq<Op>, ss: seq<Lb>, n: nat) returns (pops: seq<PoolOp>)
    requires c.ringSize >= 2 && Calls(c, ops, ss) && n <= |ops|
    ensures ss[n].pool == DoAll(NewPool(c.maxReals), pops)
  {
    hide Step;
    if n == 0 {
      return [];
    }
    hide DoAll;
    pops := CallsArePoolRun(c, ops, ss, n - 1);
    assert Step(c, ss[n - 1], ops[n - 1], ss[n - 1 + 1]);
    var more := StepIsPoolRun(c, ss[n - 1], ops[n - 1], ss[n]);
    DoAllConcat(NewPool(c.maxReals), pops, more);
    pops := pops + more;
  }

  /**
   Over any calls the real numbers given out are, in order, 0, 1, 2, ... followed by those
   given back since; what is left of that queue is the free list.
   */
  lemma RealNumbersInOrder(c: Config, ops: seq<Op>, ss: seq<Lb>, n: nat) returns (pops: seq<PoolOp>)
    requires c.ringSize >= 2 && Calls(c, ops, ss) && n <= |ops|
    ensures ss[n].pool == DoAll(NewPool(c.maxReals), pops)
    ensures seq(c.maxReals, i => i) + AllReturned(NewPool(c.maxReals), pops)
         == AllIssued(NewPool(c.maxReals), pops) + ss[n].pool.free
  {
    pops := CallsArePoolRun(c, ops, ss, n);
    FirstReleasedFirstReused(NewPool(c.maxReals), pops);
  }

  // ---------------------------------------------------------------------
  // Without repeated deletions
  // ---------------------------------------------------------------------

  /** No deletion batch of the run repeats an address. */
  ghost predicate NoRepeats(c: Config, ops: seq<Op>) {
    forall i :: 0 <= i < |ops| ==> DistinctDeletes(c, ops[i])
  }

  lemma {:induction false} CallsKeepCovered(c: Config, ops: seq<Op>, ss: seq<Lb>, i: nat)
    requires c.ringSize >= 2 && Calls(c, ops, ss) && NoRepeats(c, ops) && i < |ss|
    ensures Covered(BooksOf(ss[i]))
  {
    hide Step, DistinctDeletes, Exact, Covered, BooksOf;
    if i == 0 {
      InitExact(c);
      ExactIsCovered(BooksOf(Init(c)));
    } else {
      CallsKeepCovered(c, ops, ss, i - 1);
      StepKeepsReferences(c, ss[i - 1], ops[i - 1], ss[i]);
    }
  }

  lemma ExactIsCovered(b: Books)
    requires Exact(b)
    ensures Covered(b)
  {
  }

  /** In every state of such a run a number used by a VIP, a rule or a QUIC mapping is not free. */
  lemma NeverRecycledInUse(c: Config, ops: seq<Op>, ss: seq<Lb>, i: nat, n: nat)
    requires c.ringSize >= 2 && Calls(c, ops, ss) && NoRepeats(c, ops) && i < |ss| && n in ss[i].pool.free
    ensures forall k :: k in ss[i].vips ==> n !in ss[i].vips[k].reals
    ensures forall r :: r in ss[i].rules ==> ss[i].rules[r] != n
    ensures forall a :: a in ss[i].quic ==> a in ss[i].pool.reals && ss[i].pool.reals[a].num != n
  {
    CallsKeepCovered(c, ops, ss, i);
    var s, b := ss[i], BooksOf(ss[i]);
    hide Calls, NoRepeats, Covered;
    FreeIsUnused(b, n);
    forall k | k in s.vips ensures n !in s.vips[k].reals {
      assert k in b.members && b.members[k] == s.vips[k].reals.Keys;
    }
  }

  lemma FreeIsUnused(b: Books, n: nat)
    requires Covered(b) && n in b.pool.free
    ensures forall k :: k in b.members ==> n !in b.members[k]
    ensures forall r :: r in b.rules ==> b.rules[r] != n
    ensures forall a :: a in b.quic ==> a in b.pool.reals && b.pool.reals[a].num != n
  {
    assert RefCount(b.pool, n) == 0;
    assert Users(b, n) == 0;
    forall k | k in b.members ensures n !in b.members[k] {
      assert k !in VipUsers(b.members, n);
    }
    forall r | r in b.rules ensures b.rules[r] != n {
      assert r !in RuleUsers(b.rules, n);
    }
  }

  // ---------------------------------------------------------------------
  // Exact counts
  // ---------------------------------------------------------------------

  /** Reference counts are exact in the first `n` states. */
  ghost predicate ExactUpTo(ss: seq<Lb>, n: nat)
    requires n < |ss|
  {
    forall i :: 0 <= i <= n ==> Exact(BooksOf(ss[i]))
  }

  /** The first `n` calls satisfy their conditions. */
  ghost predicate LeakFree(c: Config, ops: seq<Op>, ss: seq<Lb>, n: nat)
    requires n <= |ops| < |ss|
  {
    forall i :: 0 <= i < n ==> KeepsExact(c, ss[i], ops[i])
  }

  /**
   Over any calls: in every state so far each reference count is the number of users, if and
   only if every call so far satisfied its condition.
   */
  lemma {:induction false} ExactIffLeakFree(c: Config, ops: seq<Op>, ss: seq<Lb>, n: nat)
    requires c.ringSize >= 2 && Calls(c, ops, ss) && n <= |ops|
    ensures ExactUpTo(ss, n) <==> LeakFree(c, ops, ss, n)
  {
    hide Step, Exact, BooksOf, KeepsExact;
    if n == 0 {
      InitExact(c);
    } else {
      ExactIffLeakFree(c, ops, ss, n - 1);
      assert Step(c, ss[n - 1], ops[n - 1], ss[n - 1 + 1]);
      if ExactUpTo(ss, n - 1) {
        StepExactIff(c, ss[n - 1], ops[n - 1], ss[n]);
      }
    }
  }
}
