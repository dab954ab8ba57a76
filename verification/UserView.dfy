/**
 The load balancer as its caller sees it: for each VIP the weights by address, and for each
 source prefix an address. Internal numbers, reference counts and recycling do not show.
 */
module UserView {
  import opened Options
  import opened Residues
  import opened Vips
  import opened Allocator
  import opened ControlPlane
  import opened RefSafety
  import opened RefLeaks
  import opened TableSafety
  import opened Runs
  import opened Forwarding

  // ---------------------------------------------------------------------
  // What the caller asked for
  // ---------------------------------------------------------------------

  /** Weights after an addition batch; an address is refused only if it is new and the numbers ran out. */
  ghost function AddedTo(c: Config, p: Pool, t: map<Addr, nat>, rs: seq<NewReal>): map<Addr, nat> {
    if rs == [] then t else
      var t1, r := AddedTo(c, p, t, rs[..|rs| - 1]), rs[|rs| - 1];
      match c.parse(r.address)
      case None => t1
      case Some(a) => if a in p.reals || a in Numbered(c, p, rs) then t1[a := r.weight] else t1
  }

  ghost function RemovedFrom(c: Config, t: map<Addr, nat>, rs: seq<NewReal>): map<Addr, nat> {
    if rs == [] then t else
      var t1 := RemovedFrom(c, t, rs[..|rs| - 1]);
      match c.parse(rs[|rs| - 1].address)
      case None => t1
      case Some(a) => t1 - {a}
  }

  // ---------------------------------------------------------------------
  // What the tables hold
  // ---------------------------------------------------------------------

  ghost function Weights(p: Pool, reals: Reals): map<Addr, nat> {
    map a | a in p.reals && p.reals[a].num in reals :: reals[p.reals[a].num].weight
  }

  ghost function WeightsOf(v: VipState, w: Work): map<Addr, nat> {
    Weights(w.pool, Apply(v.reals, w.ureals))
  }

  ghost predicate HeldLive(v: VipState, w: Work) {
    forall n :: n in Held(v, w) ==> n in w.pool.names
  }

  /** One real joins: its address gets the weight, every other address keeps its own. */
  lemma JoinWeights(p: Pool, q: Pool, before: Reals, after: Reals, a: Addr, n: nat, weight: nat)
    requires a in q.reals && q.reals[a].num == n
    requires forall x :: x != a ==> (x in q.reals <==> x in p.reals)
    requires forall x :: x != a && x in p.reals ==> q.reals[x].num == p.reals[x].num != n
    requires after.Keys == before.Keys + {n} && after[n].weight == weight
    requires forall m :: m in before && m != n ==> after[m] == before[m]
    ensures Weights(q, after) == Weights(p, before)[a := weight]
  {
    assert forall x :: x != a ==> (x in Weights(q, after) <==> x in Weights(p, before));
    SameButOne(Weights(p, before), Weights(q, after), a);
  }

  /** One real leaves: its address goes, every other address keeps its weight. */
  lemma LeaveWeights(p: Pool, q: Pool, before: Reals, a: Addr, n: nat)
    requires a in p.reals && p.reals[a].num == n && (a in q.reals ==> q.reals[a].num == n)
    requires forall x :: x != a ==> (x in q.reals <==> x in p.reals)
    requires forall x :: x != a && x in p.reals ==> q.reals[x].num == p.reals[x].num != n
    ensures Weights(q, before - {n}) == Weights(p, before) - {a}
  {
  }

  lemma ApplyAdd(reals: Reals, us: seq<UpdateReal>, n: nat, weight: nat, hash: nat)
    ensures var after := Apply(reals, us + [UpdateReal(Add, Maglev.Endpoint(n, weight, hash))]);
      var before := Apply(reals, us);
      && after.Keys == before.Keys + {n} && after[n].weight == weight
      && forall m :: m in before && m != n ==> after[m] == before[m]
  {
    ApplyAppend(reals, us, UpdateReal(Add, Maglev.Endpoint(n, weight, hash)));
    hide Apply;
  }

  lemma AddOneWeights(c: Config, v: VipState, w: Work, r: NewReal, a: Addr)
    requires PoolOk(w.pool) && HeldLive(v, w) && c.parse(r.address) == Some(a)
    ensures var w' := AddOne(c, w, r);
      && HeldLive(v, w')
      && WeightsOf(v, w') ==
         if NumberFor(w.pool, a) == w.pool.max then WeightsOf(v, w) else WeightsOf(v, w)[a := r.weight]
  {
    var w', n := AddOne(c, w, r), NumberFor(w.pool, a);
    AcquireCounts(w.pool, a);
    AcquireNumbers(w.pool, a);
    AddOneSets(c, v, w, r, a);
    NumbersDiffer(w.pool);
    NumbersDiffer(w'.pool);
    assert n != w.pool.max ==> w'.ureals == w.ureals + [UpdateReal(Add, Maglev.Endpoint(n, r.weight, c.hash(a)))];
    hide Acquire, AddOne, Apply, PoolOk, RefCount, Weights;
    if n != w.pool.max {
      ApplyAdd(v.reals, w.ureals, n, r.weight, c.hash(a));
      JoinWeights(w.pool, w'.pool, Apply(v.reals, w.ureals), Apply(v.reals, w'.ureals), a, n, r.weight);
    } else {
      assert w'.pool == w.pool && w'.ureals == w.ureals by { ExhaustedAdd(c, w, r, a); }
    }
  }

  lemma ExhaustedAdd(c: Config, w: Work, r: NewReal, a: Addr)
    requires PoolOk(w.pool) && c.parse(r.address) == Some(a) && NumberFor(w.pool, a) == w.pool.max
    ensures AddOne(c, w, r).pool == w.pool && AddOne(c, w, r).ureals == w.ureals
  {
    AcquireCounts(w.pool, a);
  }

  lemma DelOneWeights(c: Config, v: VipState, w: Work, r: NewReal, a: Addr)
    requires PoolOk(w.pool) && Held(v, w) <= w.cur && c.parse(r.address) == Some(a)
    ensures var w' := DelOne(c, w, r);
      && PoolOk(w'.pool) && Held(v, w') <= w'.cur && w'.cur == w.cur
      && WeightsOf(v, w') == WeightsOf(v, w) - {a}
  {
    var w' := DelOne(c, w, r);
    ReleaseCounts(w.pool, a);
    NumbersDiffer(w.pool);
    if a in w.pool.reals && w.pool.reals[a].num in w.cur {
      var n := w.pool.reals[a].num;
      var u := UpdateReal(Del, Maglev.Endpoint(n, 0, 0));
      assert w'.ureals == w.ureals + [u];
      ApplyAppend(v.reals, w.ureals, u);
      hide Release, DelOne, Apply, PoolOk, RefCount, Weights;
      LeaveWeights(w.pool, w'.pool, Apply(v.reals, w.ureals), a, n);
    }
  }

  lemma {:induction false} AddBatchWeights(c: Config, p: Pool, v: VipState, rs: seq<NewReal>)
    requires PoolOk(p) && forall n :: n in v.reals ==> n in p.names
    ensures var w := AddWork(c, p, v.reals.Keys, rs);
      && NumbersGiven(c, p, rs, Numbered(c, p, rs), w) && HeldLive(v, w)
      && WeightsOf(v, w) == AddedTo(c, p, Weights(p, v.reals), rs)
  {
    hide HeldLive, WeightsOf, NumbersGiven, Weights, PoolOk;
    if rs == [] {
      AddNoneWeights(c, p, v);
    } else {
      var front, r := rs[..|rs| - 1], rs[|rs| - 1];
      assert rs == front + [r];
      AddBatchWeights(c, p, v, front);
      var w := AddWork(c, p, v.reals.Keys, front);
      assert AddWork(c, p, v.reals.Keys, rs) == AddOne(c, w, r);
      hide AddOne, DoReals;
      AddNextWeights(c, p, v, front, w, r);
    }
  }

  lemma AddNoneWeights(c: Config, p: Pool, v: VipState)
    requires PoolOk(p) && forall n :: n in v.reals ==> n in p.names
    ensures var w := Work(p, v.reals.Keys, []);
      NumbersGiven(c, p, [], [], w) && HeldLive(v, w) && WeightsOf(v, w) == Weights(p, v.reals)
  {
    hide PoolOk;
  }

  lemma AddNextWeights(c: Config, p: Pool, v: VipState, rs: seq<NewReal>, w: Work, r: NewReal)
    requires PoolOk(p) && NumbersGiven(c, p, rs, Numbered(c, p, rs), w) && HeldLive(v, w)
    ensures var w', rs' := AddOne(c, w, r), rs + [r];
      && NumbersGiven(c, p, rs', Numbered(c, p, rs'), w') && HeldLive(v, w')
      && WeightsOf(v, w') ==
           match c.parse(r.address)
           case None => WeightsOf(v, w)
           case Some(a) =>
             if a in p.reals || a in Numbered(c, p, rs') then WeightsOf(v, w)[a := r.weight] else WeightsOf(v, w)
  {
    var f := Numbered(c, p, rs);
    assert (rs + [r])[..|rs|] == rs;
    if c.parse(r.address).Some? {
      var a := c.parse(r.address).value;
      AcquireCounts(w.pool, a);
      NumbersNext(c, p, v, rs, f, w, r, a);
      AddOneWeights(c, v, w, r, a);
      hide AddOne, Acquire, WeightsOf, HeldLive, PoolOk, RefCount, Occurred;
    } else {
      OccurredSame(c, p, rs, f, r);
      hide Occurred, PoolOk, WeightsOf, HeldLive;
    }
  }

  lemma OccurredSame(c: Config, p: Pool, rs: seq<NewReal>, f: seq<Addr>, r: NewReal)
    requires Occurred(c, p, rs, f) && c.parse(r.address).None?
    ensures Occurred(c, p, rs + [r], f)
  {
    forall x ensures Times(c, rs + [r], x) == Times(c, rs, x) {
      TimesNext(c, rs, r, x);
    }
    hide Times;
  }

  lemma {:induction false} DelBatchWeights(c: Config, p: Pool, v: VipState, rs: seq<NewReal>)
    requires PoolOk(p)
    ensures var w := DelWork(c, p, v.reals.Keys, rs);
      && PoolOk(w.pool) && Held(v, w) <= w.cur && w.cur == v.reals.Keys
      && WeightsOf(v, w) == RemovedFrom(c, Weights(p, v.reals), rs)
  {
    if rs != [] {
      var front, r := rs[..|rs| - 1], rs[|rs| - 1];
      DelBatchWeights(c, p, v, front);
      var w := DelWork(c, p, v.reals.Keys, front);
      if c.parse(r.address).Some? {
        hide DelOne, WeightsOf, Held, PoolOk;
        DelOneWeights(c, v, w, r, c.parse(r.address).value);
      }
    }
  }

  /** Weights do not change while the numbers stay live and keep their names. */
  lemma WeightsStay(p: Pool, q: Pool, reals: Reals)
    requires PoolOk(p) && PoolOk(q) && NamesAgree(p, q)
    requires forall n :: n in reals ==> n in p.names && n in q.names
    ensures Weights(p, reals) == Weights(q, reals)
  {
    NumbersDiffer(p);
    NumbersDiffer(q);
    hide PoolOk;
    forall a ensures a in Weights(p, reals) <==> a in Weights(q, reals) {
      if a in Weights(p, reals) { assert q.names[p.reals[a].num] == a; }
      if a in Weights(q, reals) { assert p.names[q.reals[a].num] == a; }
    }
    forall a | a in Weights(p, reals) ensures Weights(p, reals)[a] == Weights(q, reals)[a] {
      assert q.names[p.reals[a].num] == a;
    }
  }

  // ---------------------------------------------------------------------
  // Every call
  // ---------------------------------------------------------------------

  /** The weights of every VIP. */
  ghost function View(s: Lb): map<VipKey, map<Addr, nat>> {
    map k | k in s.vips :: Weights(s.pool, s.vips[k].reals)
  }

  /** What a call means to the caller; the state only says whether numbers are left. */
  ghost function Wanted(c: Config, s: Lb, op: Op, view: map<VipKey, map<Addr, nat>>): map<VipKey, map<Addr, nat>> {
    match op
    case AddVip(k, _) => if c.parse(k.address).None? || s.vipNums == [] || k in view then view else view[k := map[]]
    case DelVip(k) => view - {k}
    case ModifyReals(k, action, rs) =>
      if k !in view then view
      else view[k := if action == Add then AddedTo(c, s.pool, view[k], rs) else RemovedFrom(c, view[k], rs)]
    case _ => view
  }

  lemma MembersLive(s: Lb, k: VipKey)
    requires Covered(BooksOf(s)) && k in s.vips
    ensures forall n :: n in s.vips[k].reals ==> n in s.pool.names
  {
    forall n | n in s.vips[k].reals ensures n in s.pool.names {
      CoveredIsLive(BooksOf(s), k, n);
    }
  }

  /** A VIP whose reals a call does not touch keeps its weights. */
  lemma OthersKeepWeights(s: Lb, s': Lb, k: VipKey)
    requires Covered(BooksOf(s)) && Covered(BooksOf(s')) && NamesAgree(s.pool, s'.pool)
    requires k in s.vips && k in s'.vips && s'.vips[k].reals == s.vips[k].reals
    ensures View(s')[k] == View(s)[k]
  {
    MembersLive(s, k);
    MembersLive(s', k);
    assert PoolOk(s.pool) && PoolOk(s'.pool);
    hide Covered, PoolOk, NamesAgree, Weights;
    WeightsStay(s.pool, s'.pool, s.vips[k].reals);
  }

  lemma SameRealsSameView(s: Lb, s': Lb)
    requires Covered(BooksOf(s)) && Covered(BooksOf(s')) && NamesAgree(s.pool, s'.pool)
    requires s'.vips.Keys == s.vips.Keys && forall k :: k in s.vips ==> s'.vips[k].reals == s.vips[k].reals
    ensures View(s') == View(s)
  {
    hide Covered, NamesAgree, Weights;
    forall k | k in s.vips ensures View(s')[k] == View(s)[k] {
      OthersKeepWeights(s, s', k);
    }
  }

  lemma ModifyRealsView(c: Config, s: Lb, k: VipKey, action: ModifyAction, rs: seq<NewReal>, s': Lb)
    requires c.ringSize >= 2 && Covered(BooksOf(s)) && Covered(BooksOf(s')) && k in s.vips
    requires ModifyRealsStep(c, s, k, action, rs, s')
    ensures View(s')[k] == if action == Add then AddedTo(c, s.pool, View(s)[k], rs) else RemovedFrom(c, View(s)[k], rs)
  {
    MembersLive(s, k);
    assert PoolOk(s.pool);
    var w := WorkOf(c, s, k, action, rs);
    assert s'.vips[k].reals == Apply(s.vips[k].reals, w.ureals) && s'.pool == w.pool;
    assert View(s')[k] == WeightsOf(s.vips[k], w);
    hide Covered, PoolOk, WeightsOf, Weights, ModifyRealsStep, DoReals;
    if action == Add {
      AddBatchWeights(c, s.pool, s.vips[k], rs);
    } else {
      DelBatchWeights(c, s.pool, s.vips[k], rs);
    }
  }

  /** Every call does to the weights what the caller asked for, and nothing else. */
  lemma StepFollowsView(c: Config, s: Lb, op: Op, s': Lb)
    requires c.ringSize >= 2 && Covered(BooksOf(s)) && DistinctDeletes(c, op) && Step(c, s, op, s')
    ensures View(s') == Wanted(c, s, op, View(s))
  {
    StepKeepsReferences(c, s, op, s');
    assert PoolOk(s.pool);
    hide Covered, PoolOk, BooksOf, View, DistinctDeletes, DoReals, AddRules, DelRules, QuicAll, DoAddVip, DoModifyVip;
    hide AddedTo, RemovedFrom, DelVipStep, ModifyRealsStep, ClearStep;
    match op
    case AddVip(k, flags) => AddVipView(c, s, k, flags);
    case DelVip(k) => DelVipView(c, s, k, s');
    case ModifyVip(k, flags, on) => ModifyVipView(c, s, k, flags, on);
    case ModifyReals(k, action, rs) => BatchView(c, s, k, action, rs, s');
    case _ => RestKeepsView(c, s, op, s');
  }

  lemma RestKeepsView(c: Config, s: Lb, op: Op, s': Lb)
    requires c.ringSize >= 2 && Covered(BooksOf(s)) && Covered(BooksOf(s')) && PoolOk(s.pool) && Step(c, s, op, s')
    requires !op.AddVip? && !op.DelVip? && !op.ModifyVip? && !op.ModifyReals?
    ensures View(s') == View(s)
  {
    hide Covered, PoolOk, BooksOf, View, AddRules, DelRules, QuicAll;
    match op
    case AddSrcRules(srcs, dst) =>
      AddRulesNames(c, s, srcs, dst);
      SameRealsSameView(s, s');
    case DelSrcRules(srcs) =>
      DelRulesNames(s, srcs);
      SameRealsSameView(s, s');
    case ClearSrcRules =>
      var srcs :| Distinct(srcs) && Elements(srcs) == s.rules.Keys && s' == DelRules(s, srcs);
      DelRulesNames(s, srcs);
      SameRealsSameView(s, s');
    case ModifyQuic(action, qs) =>
      QuicNames(c, action, s, qs);
      SameRealsSameView(s, s');
    case GetReals(k) => SameRealsSameView(s, s');
    case GetSrcRules => SameRealsSameView(s, s');
  }

  lemma SameButOne<K, V>(m: map<K, V>, n: map<K, V>, k: K)
    requires k in n && n.Keys == m.Keys + {k} && forall j :: j in m && j != k ==> n[j] == m[j]
    ensures n == m[k := n[k]]
  {
  }

  lemma SameWithout<K, V>(m: map<K, V>, n: map<K, V>, k: K)
    requires n.Keys == m.Keys - {k} && forall j :: j in n ==> n[j] == m[j]
    ensures n == m - {k}
  {
  }

  lemma BatchView(c: Config, s: Lb, k: VipKey, action: ModifyAction, rs: seq<NewReal>, s': Lb)
    requires c.ringSize >= 2 && Covered(BooksOf(s)) && Covered(BooksOf(s')) && PoolOk(s.pool)
    requires ModifyRealsStep(c, s, k, action, rs, s')
    ensures View(s') == Wanted(c, s, ModifyReals(k, action, rs), View(s))
  {
    hide Covered, PoolOk, DoReals, Weights, BooksOf, Diff, PushDelta, Batch, AddedTo, RemovedFrom;
    if k in s.vips {
      BatchNames(c, action, Work(s.pool, s.vips[k].reals.Keys, []), rs);
      assert NamesAgree(s.pool, s'.pool);
      assert s'.vips.Keys == s.vips.Keys && forall j :: j in s.vips && j != k ==> s'.vips[j] == s.vips[j];
      ModifyRealsView(c, s, k, action, rs, s');
      assert View(s').Keys == View(s).Keys == s.vips.Keys;
      hide ModifyRealsStep, NamesAgree, NamesGrow, View;
      forall j | j in s.vips && j != k ensures View(s')[j] == View(s)[j] {
        OthersKeepWeights(s, s', j);
      }
      SameButOne(View(s), View(s'), k);
    }
  }

  lemma DelVipView(c: Config, s: Lb, k: VipKey, s': Lb)
    requires Covered(BooksOf(s)) && Covered(BooksOf(s')) && PoolOk(s.pool) && DelVipStep(c, s, k, s')
    ensures View(s') == View(s) - {k}
  {
    hide Covered, PoolOk, Enumerates, Def, ReleaseAll, Weights, BooksOf;
    if k in s.vips {
      var nums :| Enumerates(nums, s.vips[k].reals.Keys) && s' == DoDelVip(c, s, k, nums);
      ReleaseAllNames(s.pool, nums);
      assert s'.vips == s.vips - {k} && NamesAgree(s.pool, s'.pool);
      hide DoDelVip, NamesGrow, NamesAgree;
      assert View(s).Keys == s.vips.Keys && View(s').Keys == s'.vips.Keys;
      hide View;
      forall j | j in s'.vips ensures View(s')[j] == View(s)[j] {
        OthersKeepWeights(s, s', j);
      }
      SameWithout(View(s), View(s'), k);
    } else {
      assert View(s) == View(s) - {k};
    }
  }

  lemma ModifyVipView(c: Config, s: Lb, k: VipKey, flags: bv32, on: bool)
    ensures View(DoModifyVip(c, s, k, flags, on)) == View(s)
  {
    hide Def, MetaFor, NewFlags, Weights;
  }

  /** In every state the weights and rules in the tables are what the calls asked for. */
  lemma RunFollowsView(c: Config, ops: seq<Op>, ss: seq<Lb>, i: nat)
    requires c.ringSize >= 2 && Calls(c, ops, ss) && NoRepeats(c, ops) && i < |ops|
    ensures View(ss[0]) == map[] && View(ss[i + 1]) == Wanted(c, ss[i], ops[i], View(ss[i]))
    ensures Rules(ss[0]) == map[] && Rules(ss[i + 1]) == WantedRules(c, ss[i], ops[i], Rules(ss[i]))
  {
    hide View, Wanted, Rules, WantedRules, Step, Covered, BooksOf, DistinctDeletes;
    CallsKeepCovered(c, ops, ss, i);
    StepFollowsView(c, ss[i], ops[i], ss[i + 1]);
    StepFollowsRules(c, ss[i], ops[i], ss[i + 1]);
    EmptyView(c);
  }

  lemma EmptyView(c: Config)
    ensures View(Init(c)) == map[] && Rules(Init(c)) == map[]
  {
  }

  lemma AddVipView(c: Config, s: Lb, k: VipKey, flags: bv32)
    ensures View(DoAddVip(c, s, k, flags)) == Wanted(c, s, Op.AddVip(k, flags), View(s))
  {
    assert View(s).Keys == s.vips.Keys;
    hide Def, Maglev.EmptyRing, MetaFor, View;
    var s' := DoAddVip(c, s, k, flags);
    if c.parse(k.address).Some? && s.vipNums != [] && k !in s.vips {
      NewVipView(s, s', k, s'.vips[k]);
    }
  }

  lemma NewVipView(s: Lb, s': Lb, k: VipKey, v: VipState)
    requires s'.pool == s.pool && s'.vips == s.vips[k := v] && v.reals == map[] && k !in s.vips
    ensures View(s') == View(s)[k := map[]]
  {
    assert Weights(s.pool, v.reals) == map[];
    hide Weights;
    SameButOne(View(s), View(s'), k);
  }

  /** The addresses of nonzero weight, with the weights. */
  ghost function Active(t: map<Addr, nat>): set<(Addr, nat)> {
    set a | a in t && t[a] != 0 :: (a, t[a])
  }

  /** What the forwarding results call configured is what the caller asked for with nonzero weight. */
  lemma ConfiguredIsView(s: Lb, k: VipKey)
    requires PoolOk(s.pool) && k in s.vips
    ensures Configured(s, k) == Active(View(s)[k])
  {
    var t, conf := View(s)[k], Configured(s, k);
    assert t == Weights(s.pool, s.vips[k].reals);
    hide PoolOk, Configured, Weights, View, Active;
    forall x ensures x in conf <==> x in Active(t) {
      ConfiguredAt(s, k, x);
      ActiveAt(t, x);
    }
  }

  lemma ActiveAt(t: map<Addr, nat>, x: (Addr, nat))
    ensures x in Active(t) <==> x.0 in t && t[x.0] != 0 && x.1 == t[x.0]
  {
  }

  lemma ConfiguredAt(s: Lb, k: VipKey, x: (Addr, nat))
    requires PoolOk(s.pool) && k in s.vips
    ensures x in Configured(s, k) <==>
      var t := Weights(s.pool, s.vips[k].reals); x.0 in t && t[x.0] != 0 && x.1 == t[x.0]
  {
    var t, reals := Weights(s.pool, s.vips[k].reals), s.vips[k].reals;
    if x in Configured(s, k) {
      var n :| n in reals && IsActive(reals, n) && n in s.pool.names && x == (s.pool.names[n], reals[n].weight);
      assert s.pool.reals[x.0].num == n;
    }
    if x.0 in t && t[x.0] != 0 && x.1 == t[x.0] {
      var n := s.pool.reals[x.0].num;
      assert s.pool.names[n] == x.0 && IsActive(reals, n);
    }
  }

  // ---------------------------------------------------------------------
  // Source rules
  // ---------------------------------------------------------------------

  /** Where the source rules lead. */
  ghost function Rules(s: Lb): map<Net, Addr> {
    LeadsOf(s.pool.names, s.rules)
  }

  ghost function LeadsOf(names: map<nat, Addr>, rules: map<Net, nat>): map<Net, Addr> {
    map r | r in rules && rules[r] in names :: names[rules[r]]
  }

  /** The prefixes all lead to the destination. */
  ghost function PutAll(t: map<Net, Addr>, srcs: seq<Net>, dst: Addr): map<Net, Addr> {
    if srcs == [] then t else PutAll(t, srcs[..|srcs| - 1], dst)[srcs[|srcs| - 1] := dst]
  }

  ghost function RulesRemoved(t: map<Net, Addr>, srcs: seq<Net>): map<Net, Addr> {
    if srcs == [] then t else RulesRemoved(t, srcs[..|srcs| - 1]) - {srcs[|srcs| - 1]}
  }

  lemma RulesLive(s: Lb)
    requires Covered(BooksOf(s))
    ensures Rules(s).Keys == s.rules.Keys
  {
    forall r | r in s.rules ensures s.rules[r] in s.pool.names {
      CoveredRuleIsLive(BooksOf(s), r);
    }
  }

  lemma RulesStay(s: Lb, s': Lb)
    requires Covered(BooksOf(s)) && Covered(BooksOf(s')) && NamesAgree(s.pool, s'.pool) && s'.rules == s.rules
    ensures Rules(s') == Rules(s)
  {
    RulesLive(s);
    RulesLive(s');
    hide Covered, BooksOf;
  }

  lemma LeadsPut(names: map<nat, Addr>, rules: map<Net, nat>, src: Net, n: nat, dst: Addr)
    requires (n in names ==> names[n] == dst) && forall r :: r in rules ==> rules[r] in names
    ensures LeadsOf(names[n := dst], rules[src := n]) == LeadsOf(names, rules)[src := dst]
  {
    SameButOne(LeadsOf(names, rules), LeadsOf(names[n := dst], rules[src := n]), src);
  }

  lemma AddRuleLeads(s: Lb, src: Net, dst: Addr)
    requires Covered(BooksOf(s)) && NumberFor(s.pool, dst) != s.pool.max
    ensures Rules(AddRule(s, src, dst)) == Rules(s)[src := dst]
  {
    assert PoolOk(s.pool);
    forall r | r in s.rules ensures s.rules[r] in s.pool.names {
      CoveredRuleIsLive(BooksOf(s), r);
    }
    AcquireNames(s.pool, dst);
    hide Covered, BooksOf, Acquire, NumberFor, PoolOk, LeadsOf;
    LeadsPut(s.pool.names, s.rules, src, NumberFor(s.pool, dst), dst);
  }

  /** The call lets the prefixes it installs lead to the destination, and changes no other. */
  lemma {:induction false} AddRulesLead(c: Config, s: Lb, srcs: seq<Net>, dst: Addr)
    requires Covered(BooksOf(s))
    ensures var m := Installed(c, s.rules.Keys, srcs, NumberFor(s.pool, dst) != s.pool.max);
      Rules(AddRules(c, s, srcs, dst).0) == PutAll(Rules(s), srcs[..m], dst)
  {
    if srcs != [] {
      var front, src := srcs[..|srcs| - 1], srcs[|srcs| - 1];
      assert srcs == front + [src];
      AddRulesLead(c, s, front, dst);
      hide Covered, BooksOf, Rules, PutAll, AddRules, Installed, AfterRules, NumberFor, Acquire, AddRule, Elements;
      AddRulesLeadNext(c, s, front, src, dst);
    }
  }

  lemma AddRulesLeadNext(c: Config, s: Lb, front: seq<Net>, src: Net, dst: Addr)
    requires Covered(BooksOf(s))
    requires var m := Installed(c, s.rules.Keys, front, NumberFor(s.pool, dst) != s.pool.max);
      Rules(AddRules(c, s, front, dst).0) == PutAll(Rules(s), front[..m], dst)
    ensures var m := Installed(c, s.rules.Keys, front + [src], NumberFor(s.pool, dst) != s.pool.max);
      Rules(AddRules(c, s, front + [src], dst).0) == PutAll(Rules(s), (front + [src])[..m], dst)
  {
    hide Covered, BooksOf, Rules, PutAll, AddRules, Installed, NumberFor, Acquire, AddRule, Elements;
    var srcs, numbered := front + [src], NumberFor(s.pool, dst) != s.pool.max;
    var s1, m := AddRules(c, s, front, dst).0, Installed(c, s.rules.Keys, front, numbered);
    AddRulesInstalls(c, s, front, dst);
    AddRulesAppend(c, s, front, src, dst);
    InstalledAppend(c, s.rules.Keys, front, src, numbered);
    InstalledNumbered(c, s.rules.Keys, front, numbered);
    StillNumbered(s, dst, front[..m], s1);
    assert srcs[..m] == front[..m] && front[..|front|] == front && srcs[..|srcs|] == srcs;
    assert Covered(BooksOf(s1));
    hide AfterRules;
    if m == |front| && |s1.rules| + 1 <= c.maxRules && numbered {
      AddRuleLeads(s1, src, dst);
      PutNext(Rules(s), front, src, dst);
    }
  }

  lemma PutNext(t: map<Net, Addr>, front: seq<Net>, src: Net, dst: Addr)
    ensures PutAll(t, front + [src], dst) == PutAll(t, front, dst)[src := dst]
  {
    assert (front + [src])[..|front|] == front;
  }

  lemma {:induction false} DelRulesLead(s: Lb, srcs: seq<Net>)
    requires Covered(BooksOf(s))
    ensures Covered(BooksOf(DelRules(s, srcs))) && Rules(DelRules(s, srcs)) == RulesRemoved(Rules(s), srcs)
  {
    DelRulesKeeps(s, srcs);
    if srcs != [] {
      DelRulesLead(s, srcs[..|srcs| - 1]);
      hide Covered, Rules;
      DelRuleLeads(DelRules(s, srcs[..|srcs| - 1]), srcs[|srcs| - 1]);
    }
  }

  lemma DelRuleLeads(s: Lb, src: Net)
    requires Covered(BooksOf(s)) && Covered(BooksOf(DelRule(s, src)))
    ensures Rules(DelRule(s, src)) == Rules(s) - {src}
  {
    var s' := DelRule(s, src);
    RulesLive(s);
    RulesLive(s');
    assert PoolOk(s.pool);
    if src in s.rules {
      ReleaseShrinks(s.pool, s.pool.names[s.rules[src]]);
      hide Release, Covered, BooksOf, PoolOk;
    }
  }

  lemma {:induction false} RemovedKeys(t: map<Net, Addr>, srcs: seq<Net>)
    ensures RulesRemoved(t, srcs).Keys == t.Keys - Elements(srcs)
  {
    if srcs != [] {
      var front, last := srcs[..|srcs| - 1], srcs[|srcs| - 1];
      RemovedKeys(t, front);
      assert srcs == front + [last];
      assert Elements(srcs) == Elements(front) + {last};
    }
  }

  /** What a call means for the source rules. */
  ghost function WantedRules(c: Config, s: Lb, op: Op, t: map<Net, Addr>): map<Net, Addr> {
    match op
    case AddSrcRules(srcs, dst) =>
      PutAll(t, srcs[..Installed(c, t.Keys, srcs, NumberFor(s.pool, dst) != s.pool.max)], dst)
    case DelSrcRules(srcs) => RulesRemoved(t, srcs)
    case ClearSrcRules => map[]
    case _ => t
  }

  /** Every call does to the source rules what the caller asked for, and nothing else. */
  lemma StepFollowsRules(c: Config, s: Lb, op: Op, s': Lb)
    requires c.ringSize >= 2 && Covered(BooksOf(s)) && DistinctDeletes(c, op) && Step(c, s, op, s')
    ensures Rules(s') == WantedRules(c, s, op, Rules(s))
  {
    StepKeepsReferences(c, s, op, s');
    assert PoolOk(s.pool);
    hide Covered, PoolOk, BooksOf, Rules, DistinctDeletes, AddRules, DelRules, QuicAll, PutAll, RulesRemoved, Installed;
    match op
    case AddSrcRules(srcs, dst) =>
      RulesLive(s);
      AddRulesLead(c, s, srcs, dst);
    case DelSrcRules(srcs) => DelRulesLead(s, srcs);
    case ClearSrcRules => ClearedRules(s, s');
    case ModifyQuic(action, qs) =>
      QuicNames(c, action, s, qs);
      RulesStay(s, s');
    case ModifyReals(k, action, rs) => BatchKeepsRules(c, s, k, action, rs, s');
    case DelVip(k) => DelVipKeepsRules(c, s, k, s');
    case AddVip(k, flags) => RulesStay(s, s');
    case ModifyVip(k, flags, on) =>
      hide NewFlags, Def;
      RulesStay(s, s');
    case GetReals(k) => RulesStay(s, s');
    case GetSrcRules => RulesStay(s, s');
  }

  lemma BatchKeepsRules(c: Config, s: Lb, k: VipKey, action: ModifyAction, rs: seq<NewReal>, s': Lb)
    requires c.ringSize >= 2 && Covered(BooksOf(s)) && Covered(BooksOf(s')) && PoolOk(s.pool)
    requires ModifyRealsStep(c, s, k, action, rs, s')
    ensures Rules(s') == Rules(s)
  {
    hide Covered, PoolOk, BooksOf, Rules, DoReals, Batch, PushDelta, Diff;
    if k in s.vips {
      BatchNames(c, action, Work(s.pool, s.vips[k].reals.Keys, []), rs);
      RulesStay(s, s');
    }
  }

  lemma DelVipKeepsRules(c: Config, s: Lb, k: VipKey, s': Lb)
    requires Covered(BooksOf(s)) && Covered(BooksOf(s')) && PoolOk(s.pool) && DelVipStep(c, s, k, s')
    ensures Rules(s') == Rules(s)
  {
    hide Covered, PoolOk, BooksOf, Rules, Enumerates, ReleaseAll, Def;
    if k in s.vips {
      var nums :| Enumerates(nums, s.vips[k].reals.Keys) && s' == DoDelVip(c, s, k, nums);
      ReleaseAllNames(s.pool, nums);
      RulesStay(s, s');
    }
  }

  lemma ClearedRules(s: Lb, s': Lb)
    requires Covered(BooksOf(s)) && ClearStep(s, s')
    ensures Rules(s') == map[]
  {
    var srcs :| Distinct(srcs) && Elements(srcs) == s.rules.Keys && s' == DelRules(s, srcs);
    DelRulesLead(s, srcs);
    RulesLive(s);
    RemovedKeys(Rules(s), srcs);
    hide Covered, BooksOf, Rules, DelRules;
    assert RulesRemoved(Rules(s), srcs).Keys == {};
  }
}
