/**
 When the control plane's calls return. The only loop that may not end is the ring
 construction; as long as every real added with nonzero weight has a safe skip, it ends.
 */
module Progress {
  import opened Residues
  import opened Probing
  import opened Maglev
  import opened Vips
  import opened Allocator
  import opened ControlPlane
  import opened TableSafety
  import opened Runs

  ghost predicate SafeAddress(c: Config, a: Addr)
    requires c.ringSize >= 2
  {
    SafeSkip(Permutation(c.hash(a), c.ringSize, c.murmur), c.ringSize)
  }

  /** Only reals added with nonzero weight take turns in a ring. */
  ghost predicate SafeReal(c: Config, r: NewReal)
    requires c.ringSize >= 2
  {
    r.weight > 0 && c.parse(r.address).Some? ==> SafeAddress(c, c.parse(r.address).value)
  }

  ghost predicate SafeBatch(c: Config, action: ModifyAction, rs: seq<NewReal>)
    requires c.ringSize >= 2
  {
    action == Add ==> forall i :: 0 <= i < |rs| ==> SafeReal(c, rs[i])
  }

  /** The hashes stored with the active reals of every VIP have safe skips. */
  ghost predicate SafeStored(c: Config, s: Lb)
    requires c.ringSize >= 2
  {
    forall k :: k in s.vips ==> SafeReals(s.vips[k].reals, c.ringSize, c.murmur)
  }

  lemma AddOneSafe(c: Config, v: VipState, w: Work, r: NewReal)
    requires c.ringSize >= 2 && SafeReal(c, r) && SafeReals(Apply(v.reals, w.ureals), c.ringSize, c.murmur)
    ensures SafeReals(Apply(v.reals, AddOne(c, w, r).ureals), c.ringSize, c.murmur)
  {
    hide SafeSkip, Permutation, Apply, Acquire;
    if c.parse(r.address).Some? {
      var a := c.parse(r.address).value;
      var n, w' := NumberFor(w.pool, a), AddOne(c, w, r);
      if w'.ureals != w.ureals {
        var u := UpdateReal(Add, Endpoint(n, r.weight, c.hash(a)));
        assert w'.ureals == w.ureals + [u];
        ApplyAppend(v.reals, w.ureals, u);
        hide AddOne, NumberFor;
        OneMoreSafe(c, Apply(v.reals, w.ureals), n, r.weight, c.hash(a));
      }
    }
  }

  lemma OneMoreSafe(c: Config, reals: Reals, n: nat, weight: nat, h: nat)
    requires c.ringSize >= 2 && SafeReals(reals, c.ringSize, c.murmur)
    requires weight > 0 ==> SafeSkip(Permutation(h, c.ringSize, c.murmur), c.ringSize)
    ensures SafeReals(ApplyOne(reals, UpdateReal(Add, Endpoint(n, weight, h))), c.ringSize, c.murmur)
  {
    hide SafeSkip, Permutation;
  }

  lemma {:induction false} AddBatchSafe(c: Config, v: VipState, p: Pool, rs: seq<NewReal>)
    requires c.ringSize >= 2 && SafeBatch(c, Add, rs) && SafeReals(v.reals, c.ringSize, c.murmur)
    ensures var w := DoReals(c, Add, Work(p, v.reals.Keys, []), rs);
      SafeReals(Apply(v.reals, w.ureals), c.ringSize, c.murmur)
  {
    if rs != [] {
      var front, r := rs[..|rs| - 1], rs[|rs| - 1];
      AddBatchSafe(c, v, p, front);
      hide AddOne, SafeReals, SafeReal;
      AddOneSafe(c, v, DoReals(c, Add, Work(p, v.reals.Keys, []), front), r);
    }
  }

  lemma BatchStaysSafe(c: Config, s: Lb, k: VipKey, action: ModifyAction, rs: seq<NewReal>)
    requires c.ringSize >= 2 && SafeStored(c, s) && k in s.vips && SafeBatch(c, action, rs)
    ensures SafeReals(Apply(s.vips[k].reals, WorkOf(c, s, k, action, rs).ureals), c.ringSize, c.murmur)
  {
    var v, w0 := s.vips[k], Work(s.pool, s.vips[k].reals.Keys, []);
    if action == Add {
      hide SafeReals, DoReals;
      AddBatchSafe(c, v, s.pool, rs);
    } else {
      var w := DoReals(c, Del, w0, rs);
      hide DoReals, SafeSkip, Permutation;
      forall n: nat | IsActive(Apply(v.reals, w.ureals), n)
        ensures SafeSkip(Permutation(Apply(v.reals, w.ureals)[n].hash, c.ringSize, c.murmur), c.ringSize)
      {
        DelBatchReals(c, v, w0, rs, n);
      }
    }
  }

  lemma StepKeepsSafe(c: Config, s: Lb, op: Op, s': Lb)
    requires c.ringSize >= 2 && PoolOk(s.pool) && SafeStored(c, s) && Step(c, s, op, s')
    requires op.ModifyReals? ==> SafeBatch(c, op.action, op.newReals)
    ensures SafeStored(c, s')
  {
    hide SafeReals, PoolOk, AddRules, DelRules, QuicAll, ReleaseAll, Def, NewFlags, EmptyRing, DoReals, PushDelta, Diff;
    hide SafeBatch;
    match op
    case AddVip(k, flags) => NoRealsSafe(c);
    case ModifyReals(k, action, rs) =>
      if k in s.vips { BatchStaysSafe(c, s, k, action, rs); }
    case AddSrcRules(srcs, dst) => AddRulesNames(c, s, srcs, dst);
    case DelSrcRules(srcs) => DelRulesNames(s, srcs);
    case ClearSrcRules =>
      var srcs :| Distinct(srcs) && Elements(srcs) == s.rules.Keys && s' == DelRules(s, srcs);
      DelRulesNames(s, srcs);
    case ModifyQuic(action, qs) => QuicNames(c, action, s, qs);
    case _ =>
  }

  lemma NoRealsSafe(c: Config)
    requires c.ringSize >= 2
    ensures SafeReals(map[], c.ringSize, c.murmur)
  {
  }

  /** Every real that a call adds with nonzero weight has a safe skip. */
  ghost predicate SafeCalls(c: Config, ops: seq<Op>)
    requires c.ringSize >= 2
  {
    forall i :: 0 <= i < |ops| && ops[i].ModifyReals? ==> SafeBatch(c, ops[i].action, ops[i].newReals)
  }

  lemma {:induction false} SafeCallsStore(c: Config, ops: seq<Op>, ss: seq<Lb>, i: nat)
    requires c.ringSize >= 2 && Calls(c, ops, ss) && SafeCalls(c, ops) && i < |ss|
    ensures SafeStored(c, ss[i])
  {
    if i > 0 {
      CallsKeepNumbers(c, ops, ss, i - 1);
      SafeCallsStore(c, ops, ss, i - 1);
      assert PoolOk(ss[i - 1].pool);
      hide NumbersOk, PoolOk, Step, SafeStored, SafeBatch;
      StepKeepsSafe(c, ss[i - 1], ops[i - 1], ss[i]);
    }
  }

  /** After any such calls, any such batch returns: its ring construction ends. */
  lemma SafeCallsReturn(c: Config, ops: seq<Op>, ss: seq<Lb>, i: nat, k: VipKey, action: ModifyAction,
                        rs: seq<NewReal>)
    requires c.ringSize >= 2 && Calls(c, ops, ss) && SafeCalls(c, ops) && i < |ss|
    requires k in ss[i].vips && SafeBatch(c, action, rs)
    ensures BatchReturns(ss[i].vips[k].reals, WorkOf(c, ss[i], k, action, rs).ureals, c.ringSize, c.murmur)
  {
    SafeCallsStore(c, ops, ss, i);
    BatchStaysSafe(c, ss[i], k, action, rs);
    hide SafeReals, RingEnds, WorkOf, Calls, SafeCalls, SafeStored, SafeBatch;
    SafeRealsEnd(Apply(ss[i].vips[k].reals, WorkOf(c, ss[i], k, action, rs).ureals), c.ringSize, c.murmur);
  }
}
