/**
 End-to-end results about the control plane: what the kernel tables say after every run of
 calls, where a packet that is resolved through the ring goes, and that two instances with
 the same configuration agree packet by packet.
 */
module Forwarding {
  import opened Residues
  import opened Vips
  import opened Allocator
  import opened ControlPlane
  import opened RefSafety
  import opened TableSafety
  import opened Runs

  /** What every call keeps, as long as deletions do not repeat an address. */
  ghost predicate TablesOk(c: Config, s: Lb)
    requires c.ringSize >= 2
  {
    && Covered(BooksOf(s)) && s.pool.max == c.maxReals
    && VipNumbersOk(c, s)
    && RingsOk(c, s)
    && EntriesOwned(c, s)
    && SlicesOk(c, s)
  }

  /** What every call keeps that moreover adds no VIP under a second spelling. */
  ghost predicate Inv(c: Config, s: Lb)
    requires c.ringSize >= 2
  {
    TablesOk(c, s) && VipMapOk(c, s)
  }

  lemma InitInv(c: Config)
    requires c.ringSize >= 2
    ensures Inv(c, Init(c)) && Exact(BooksOf(Init(c)))
  {
    InitExact(c);
    var s := Init(c);
    forall n: nat | n < c.maxVips ensures n in s.vipNums {
      assert s.vipNums[n] == n;
    }
  }

  /** Calls that touch neither VIPs nor rings. */
  lemma PoolOnlyStep(c: Config, s: Lb, s': Lb)
    requires c.ringSize >= 2 && TablesOk(c, s) && Covered(BooksOf(s')) && s'.pool.max == s.pool.max
    requires NamesAgree(s.pool, s'.pool)
    requires s'.vips == s.vips && s'.vipNums == s.vipNums
    requires s'.kernel.vipMap == s.kernel.vipMap && s'.kernel.rings == s.kernel.rings
    ensures TablesOk(c, s')
  {
    hide Covered, VipNumbersOk, RingsOk, SliceOk, EntriesOwned;
    RingsStay(c, s, s');
    SameNumbersOk(c, s, s');
    SameEntries(c, s, s');
  }

  lemma AddVipTables(c: Config, s: Lb, k: VipKey, flags: bv32)
    requires c.ringSize >= 2 && TablesOk(c, s)
    ensures TablesOk(c, DoAddVip(c, s, k, flags))
  {
    hide Covered, VipNumbersOk, EntriesOwned, Def, RingsOk, SlicesOk;
    AddVipKeeps(c, s, k, flags);
    AddVipNumbers(c, s, k, flags);
    AddVipEntries(c, s, k, flags);
    AddVipRings(c, s, k, flags);
    AddVipSlices(c, s, k, flags);
  }

  lemma AddVipRings(c: Config, s: Lb, k: VipKey, flags: bv32)
    requires c.ringSize >= 2 && RingsOk(c, s)
    ensures RingsOk(c, DoAddVip(c, s, k, flags))
  {
  }

  lemma AddVipSlices(c: Config, s: Lb, k: VipKey, flags: bv32)
    requires SlicesOk(c, s)
    ensures SlicesOk(c, DoAddVip(c, s, k, flags))
  {
  }

  lemma DelVipTables(c: Config, s: Lb, k: VipKey, s': Lb)
    requires c.ringSize >= 2 && TablesOk(c, s) && DelVipStep(c, s, k, s')
    ensures TablesOk(c, s')
  {
    TablesPoolOk(c, s);
    hide ReleaseAll, Covered, VipNumbersOk, EntriesOwned, RingsOk, SlicesOk, PoolOk, Enumerates, Def;
    DelVipKeeps(c, s, k, s');
    if k in s.vips {
      var nums :| Enumerates(nums, s.vips[k].reals.Keys) && s' == DoDelVip(c, s, k, nums);
      DelVipNumbers(c, s, k, nums);
      DelVipEntries(c, s, k, nums);
      ReleaseAllNames(s.pool, nums);
      DelVipRings(c, s, k, nums);
    }
  }

  lemma DelVipRings(c: Config, s: Lb, k: VipKey, nums: seq<nat>)
    requires c.ringSize >= 2 && k in s.vips && RingsOk(c, s) && SlicesOk(c, s)
    requires NamesAgree(s.pool, ReleaseAll(s.pool, nums)) && Covered(BooksOf(DoDelVip(c, s, k, nums)))
    ensures RingsOk(c, DoDelVip(c, s, k, nums)) && SlicesOk(c, DoDelVip(c, s, k, nums))
  {
    hide ReleaseAll, Covered, RingsOk, NamesAgree, SliceOk, Def, BooksOf;
    RingsStay(c, s, DoDelVip(c, s, k, nums));
  }

  lemma ModifyVipTables(c: Config, s: Lb, k: VipKey, flags: bv32, on: bool)
    requires c.ringSize >= 2 && TablesOk(c, s)
    ensures TablesOk(c, DoModifyVip(c, s, k, flags, on))
  {
    if k in s.vips {
      var s' := DoModifyVip(c, s, k, flags, on);
      var v := s'.vips[k];
      hide Def, NewFlags, Covered, VipNumbersOk, RingsOk, SlicesOk, EntriesOwned;
      ReplaceEntry(c, s, k, v);
      assert v == s.vips[k].(flags := v.flags) && s' == s.(vips := s.vips[k := v], kernel := s'.kernel);
      FlagsOnly(c, s, s', k, v);
    }
  }

  /** Nothing but the VIP table depends on the flags. */
  lemma FlagsOnly(c: Config, s: Lb, s': Lb, k: VipKey, v: VipState)
    requires c.ringSize >= 2 && TablesOk(c, s) && k in s.vips && v == s.vips[k].(flags := v.flags)
    requires s'.vips == s.vips[k := v] && s'.pool == s.pool && s'.vipNums == s.vipNums
    requires s'.kernel.rings == s.kernel.rings && s'.quic == s.quic && s'.rules == s.rules
    ensures Covered(BooksOf(s')) && VipNumbersOk(c, s') && RingsOk(c, s') && SlicesOk(c, s')
  {
    hide Covered, EntriesOwned, SliceOk, InSync, HashesOk;
    assert s'.vips.Keys == s.vips.Keys;
    assert forall j :: j in s.vips ==> s'.vips[j] == s.vips[j].(flags := s'.vips[j].flags);
    assert MembersOf(s'.vips) == MembersOf(s.vips);
    SameNumbersOk(c, s, s');
    RingsStay(c, s, s');
    forall j | j in s'.vips ensures SliceOk(c, s'.kernel.rings, s'.vips[j]) {
      SliceSame(c, s.kernel.rings, s.vips[j], s'.vips[j]);
    }
  }

  lemma SliceSame(c: Config, rings: map<nat, int>, v: VipState, v': VipState)
    requires SliceOk(c, rings, v) && v'.ring == v.ring && v'.num == v.num
    ensures SliceOk(c, rings, v')
  {
  }

  lemma ModifyRealsTables(c: Config, s: Lb, k: VipKey, action: ModifyAction, rs: seq<NewReal>, s': Lb)
    requires c.ringSize >= 2 && TablesOk(c, s) && ModifyRealsStep(c, s, k, action, rs, s')
    requires action == Del ==> DistinctAddresses(c, rs)
    ensures TablesOk(c, s')
  {
    ModifyRealsKeeps(c, s, k, action, rs, s');
    ModifyRealsRings(c, s, k, action, rs, s');
    ModifyRealsSlices(c, s, k, action, rs, s');
    TablesPoolOk(c, s);
    hide Covered, RingsOk, SlicesOk, DoReals, PoolOk, VipNumbersOk, EntriesOwned;
    if k in s.vips {
      BatchNames(c, action, Work(s.pool, s.vips[k].reals.Keys, []), rs);
      BatchKeepsVipNumbers(c, s, k, action, rs, s');
      BatchMetas(c, s, k, action, rs, s');
      SameEntries(c, s, s');
    }
  }

  /** A batch changes neither numbers nor flags. */
  lemma BatchMetas(c: Config, s: Lb, k: VipKey, action: ModifyAction, rs: seq<NewReal>, s': Lb)
    requires c.ringSize >= 2 && k in s.vips && ModifyRealsStep(c, s, k, action, rs, s')
    ensures s'.kernel.vipMap == s.kernel.vipMap && s'.vips.Keys == s.vips.Keys
    ensures forall j :: j in s.vips ==> MetaFor(s'.vips[j]) == MetaFor(s.vips[j])
  {
    hide DoReals, Apply, RingOf, PushDelta, Diff;
    assert s'.vips.Keys == s.vips.Keys;
  }

  /** Every call without a repeated deletion keeps the tables right. */
  lemma StepKeepsTables(c: Config, s: Lb, op: Op, s': Lb)
    requires c.ringSize >= 2 && TablesOk(c, s) && DistinctDeletes(c, op) && Step(c, s, op, s')
    ensures TablesOk(c, s')
  {
    StepKeepsReferences(c, s, op, s');
    TablesPoolOk(c, s);
    hide TablesOk, PoolOk, Covered, DoReals, AddRules, DelRules, QuicAll, DoAddVip, DoModifyVip;
    match op
    case AddVip(k, flags) => AddVipTables(c, s, k, flags);
    case DelVip(k) => DelVipTables(c, s, k, s');
    case ModifyVip(k, flags, on) => ModifyVipTables(c, s, k, flags, on);
    case ModifyReals(k, action, rs) => ModifyRealsTables(c, s, k, action, rs, s');
    case AddSrcRules(srcs, dst) =>
      AddRulesNames(c, s, srcs, dst);
      PoolOnlyStep(c, s, s');
    case DelSrcRules(srcs) =>
      DelRulesNames(s, srcs);
      PoolOnlyStep(c, s, s');
    case ClearSrcRules =>
      var srcs :| Distinct(srcs) && Elements(srcs) == s.rules.Keys && s' == DelRules(s, srcs);
      DelRulesNames(s, srcs);
      PoolOnlyStep(c, s, s');
    case ModifyQuic(action, qs) =>
      QuicNames(c, action, s, qs);
      PoolOnlyStep(c, s, s');
    case GetReals(k) => PoolOnlyStep(c, s, s');
    case GetSrcRules => PoolOnlyStep(c, s, s');
  }

  /** Every call that adds no second spelling keeps the kernel's VIP table. */
  lemma StepKeepsVipMap(c: Config, s: Lb, op: Op, s': Lb)
    requires c.ringSize >= 2 && PoolOk(s.pool) && VipMapOk(c, s) && Step(c, s, op, s')
    requires op.AddVip? ==> FreshDef(c, s, op.key)
    ensures VipMapOk(c, s')
  {
    hide PoolOk, VipMapOk, DoReals, AddRules, DelRules, QuicAll, ReleaseAll, Def, NewFlags, Batch, PushDelta, Diff;
    match op
    case AddVip(k, flags) => AddVipMap(c, s, k, flags);
    case DelVip(k) =>
      if k in s.vips {
        var nums :| Enumerates(nums, s.vips[k].reals.Keys) && s' == DoDelVip(c, s, k, nums);
        DelVipMap(c, s, k, nums);
      }
    case ModifyVip(k, flags, on) =>
      if k in s.vips { ReplaceVip(c, s, k, s'.vips[k]); }
    case ModifyReals(k, action, rs) =>
      if k in s.vips {
        BatchMetas(c, s, k, action, rs, s');
        SameVipMap(c, s, s');
      }
    case AddSrcRules(srcs, dst) =>
      AddRulesNames(c, s, srcs, dst);
      SameVipMap(c, s, s');
    case DelSrcRules(srcs) =>
      DelRulesNames(s, srcs);
      SameVipMap(c, s, s');
    case ClearSrcRules =>
      var srcs :| Distinct(srcs) && Elements(srcs) == s.rules.Keys && s' == DelRules(s, srcs);
      DelRulesNames(s, srcs);
      SameVipMap(c, s, s');
    case ModifyQuic(action, qs) =>
      QuicNames(c, action, s, qs);
      SameVipMap(c, s, s');
    case GetReals(k) => SameVipMap(c, s, s');
    case GetSrcRules => SameVipMap(c, s, s');
  }

  lemma StepKeepsInv(c: Config, s: Lb, op: Op, s': Lb)
    requires c.ringSize >= 2 && Inv(c, s) && OpOk(c, s, op) && Step(c, s, op, s')
    ensures Inv(c, s')
  {
    TablesPoolOk(c, s);
    hide TablesOk, VipMapOk, Step, PoolOk;
    StepKeepsTables(c, s, op, s');
    StepKeepsVipMap(c, s, op, s');
  }

  // ---------------------------------------------------------------------
  // Runs
  // ---------------------------------------------------------------------

  /** Calls without repeated deletions keep the tables right, whatever they are. */
  lemma {:induction false} CallsKeepTables(c: Config, ops: seq<Op>, ss: seq<Lb>, i: nat)
    requires c.ringSize >= 2 && Calls(c, ops, ss) && NoRepeats(c, ops) && i < |ss|
    ensures TablesOk(c, ss[i])
  {
    hide TablesOk, Step, DistinctDeletes;
    if i == 0 {
      InitInv(c);
    } else {
      CallsKeepTables(c, ops, ss, i - 1);
      StepKeepsTables(c, ss[i - 1], ops[i - 1], ss[i]);
    }
  }

  /** A run of calls that all keep the kernel's VIP table right as well. */
  ghost predicate Run(c: Config, ops: seq<Op>, ss: seq<Lb>)
    requires c.ringSize >= 2
  {
    Calls(c, ops, ss) && forall i :: 0 <= i < |ops| ==> OpOk(c, ss[i], ops[i])
  }

  lemma {:induction false} RunKeepsInv(c: Config, ops: seq<Op>, ss: seq<Lb>, i: nat)
    requires c.ringSize >= 2 && Run(c, ops, ss) && i < |ss|
    ensures Inv(c, ss[i])
  {
    hide Inv, Step, OpOk;
    if i == 0 {
      InitInv(c);
    } else {
      RunKeepsInv(c, ops, ss, i - 1);
      StepKeepsInv(c, ss[i - 1], ops[i - 1], ss[i]);
    }
  }

  lemma TablesPoolOk(c: Config, s: Lb)
    requires c.ringSize >= 2 && TablesOk(c, s)
    ensures PoolOk(s.pool)
  {
  }

  // ---------------------------------------------------------------------
  // Where packets go
  // ---------------------------------------------------------------------

  /** Ring lookup as the forwarding plane does it: the VIP's number, the flow's hash, two tables. */
  ghost function RingReal(c: Config, s: Lb, meta: VipMeta, h: nat): int
    requires c.ringSize > 0
  {
    var cell := c.ringSize * meta.num + h % c.ringSize;
    if cell in s.kernel.rings then s.kernel.rings[cell] else 0
  }

  /** Addresses of a VIP's reals of nonzero weight, with the weights. */
  ghost function Configured(s: Lb, k: VipKey): set<(Addr, nat)>
    requires k in s.vips
  {
    set n | n in s.vips[k].reals && IsActive(s.vips[k].reals, n) && n in s.pool.names ::
      (s.pool.names[n], s.vips[k].reals[n].weight)
  }

  lemma CellValue(c: Config, rings: map<nat, int>, v: VipState, pos: nat)
    requires SliceOk(c, rings, v) && pos < |v.ring| && v.ring[pos] != -1
    ensures c.ringSize * v.num + pos in rings && rings[c.ringSize * v.num + pos] == v.ring[pos]
  {
  }

  /** The kernel's ring cell of a VIP with an active real holds the number of an active real of it. */
  lemma LookupCell(c: Config, s: Lb, k: VipKey, h: nat)
    requires c.ringSize >= 2 && TablesOk(c, s) && k in s.vips && HasActive(s.vips[k].reals)
    ensures |s.vips[k].ring| == c.ringSize
    ensures RingReal(c, s, MetaFor(s.vips[k]), h) == s.vips[k].ring[h % c.ringSize]
    ensures s.vips[k].ring[h % c.ringSize] >= 0 && IsActive(s.vips[k].reals, s.vips[k].ring[h % c.ringSize])
  {
    var v, pos := s.vips[k], h % c.ringSize;
    TablesVip(c, s, k);
    hide TablesOk, InSync, HasActive, SliceOk;
    RingNamesActive(v, c.ringSize, c.murmur, pos);
    CellValue(c, s.kernel.rings, v, pos);
  }

  lemma TablesVip(c: Config, s: Lb, k: VipKey)
    requires c.ringSize >= 2 && TablesOk(c, s) && k in s.vips
    ensures InSync(s.vips[k], c.ringSize, c.murmur) && |s.vips[k].ring| == c.ringSize
    ensures HashesOk(c, s.pool, s.vips[k].reals) && SliceOk(c, s.kernel.rings, s.vips[k])
    ensures s.vips[k].num < c.maxVips && PoolOk(s.pool) && s.pool.max == c.maxReals
  {
  }

  /**
   After every run, the ring path of the kernel tables leads every packet of a VIP with an
   active real to the address of a real that is configured on that VIP with nonzero weight.
   */
  lemma RingPathIsConfigured(c: Config, ops: seq<Op>, ss: seq<Lb>, i: nat, k: VipKey, h: nat)
    requires ConfigOk(c) && Run(c, ops, ss) && i < |ss|
    requires k in ss[i].vips && HasActive(ss[i].vips[k].reals)
    ensures LeadsToConfigured(c, ss[i], k, h)
  {
    RunKeepsInv(c, ops, ss, i);
    InvLeadsToConfigured(c, ss[i], k, h);
  }

  /** The VIP is in the kernel's table and its ring cell for hash `h` names one of its active reals. */
  ghost predicate LeadsToConfigured(c: Config, s: Lb, k: VipKey, h: nat)
    requires c.ringSize > 0 && k in s.vips
  {
    && Def(c, k) in s.kernel.vipMap
    && var n := RingReal(c, s, s.kernel.vipMap[Def(c, k)], h);
       && 0 <= n && n in s.pool.mirror && n in s.vips[k].reals
       && (s.pool.mirror[n as nat], s.vips[k].reals[n as nat].weight) in Configured(s, k)
  }

  lemma InvLeadsToConfigured(c: Config, s: Lb, k: VipKey, h: nat)
    requires c.ringSize >= 2 && Inv(c, s) && k in s.vips && HasActive(s.vips[k].reals)
    ensures LeadsToConfigured(c, s, k, h)
  {
    LookupCell(c, s, k, h);
    TablesVip(c, s, k);
    hide TablesOk, InSync, HasActive, SliceOk;
    var n := s.vips[k].ring[h % c.ringSize];
    assert n in s.pool.names && s.pool.mirror[n as nat] == s.pool.names[n as nat];
  }

  // ---------------------------------------------------------------------
  // Two instances agree
  // ---------------------------------------------------------------------

  ghost predicate HashesDiffer(c: Config, conf: set<(Addr, nat)>) {
    forall x, y :: x in conf && y in conf && x.0 != y.0 ==> c.hash(x.0) != c.hash(y.0)
  }

  lemma ConfiguredTags(c: Config, s: Lb, k: VipKey)
    requires PoolOk(s.pool) && k in s.vips && HashesOk(c, s.pool, s.vips[k].reals)
    ensures Names(s.pool.names, s.vips[k].reals)
    ensures forall t: Tag<Addr> :: t in ActiveTags(s.pool.names, s.vips[k].reals) <==>
      (t.name, t.weight) in Configured(s, k) && t.hash == c.hash(t.name)
    ensures HashesDiffer(c, Configured(s, k)) ==> DistinctHashes(s.vips[k].reals)
  {
    var reals, names := s.vips[k].reals, s.pool.names;
    forall t: Tag<Addr> | (t.name, t.weight) in Configured(s, k) && t.hash == c.hash(t.name)
      ensures t in ActiveTags(names, reals)
    {
      var n :| n in reals && IsActive(reals, n) && n in names && (names[n], reals[n].weight) == (t.name, t.weight);
      assert t == Tag(names[n], reals[n].weight, reals[n].hash);
    }
    if HashesDiffer(c, Configured(s, k)) {
      forall m, n | IsActive(reals, m) && IsActive(reals, n) && m != n
        ensures reals[m].hash != reals[n].hash
      {
        assert (names[m], reals[m].weight) in Configured(s, k);
        assert (names[n], reals[n].weight) in Configured(s, k);
        assert names[m] != names[n];
      }
    }
  }

  /**
   Two instances, with any history, numbering and table sizes, whose VIPs hold the same active
   addresses and weights send every packet that is resolved through the ring to the same address.
   */
  lemma InstancesAgree(c: Config, ops: seq<Op>, ss: seq<Lb>, s: Lb, k: VipKey,
                       d: Config, ops': seq<Op>, ts: seq<Lb>, t: Lb, j: VipKey, h: nat)
    requires ConfigOk(c) && ConfigOk(d) && Run(c, ops, ss) && Run(d, ops', ts) && s in ss && t in ts
    requires d.ringSize == c.ringSize && d.murmur == c.murmur && d.hash == c.hash
    requires k in s.vips && j in t.vips && HasActive(s.vips[k].reals)
    requires Configured(s, k) == Configured(t, j) && HashesDiffer(c, Configured(s, k))
    ensures Def(c, k) in s.kernel.vipMap && Def(d, j) in t.kernel.vipMap
    ensures var m, n := RingReal(c, s, s.kernel.vipMap[Def(c, k)], h), RingReal(d, t, t.kernel.vipMap[Def(d, j)], h);
      && 0 <= m && m in s.pool.mirror && 0 <= n && n in t.pool.mirror
      && s.pool.mirror[m as nat] == t.pool.mirror[n as nat]
  {
    var i, i' :| 0 <= i < |ss| && ss[i] == s && 0 <= i' < |ts| && ts[i'] == t;
    RunKeepsInv(c, ops, ss, i);
    RunKeepsInv(d, ops', ts, i');
    AgreeInInv(c, s, k, d, t, j, h);
  }

  lemma ActiveTransfers(c: Config, s: Lb, k: VipKey, d: Config, t: Lb, j: VipKey)
    requires PoolOk(s.pool) && PoolOk(t.pool) && d.hash == c.hash && k in s.vips && j in t.vips
    requires HashesOk(c, s.pool, s.vips[k].reals) && HashesOk(d, t.pool, t.vips[j].reals)
    requires HasActive(s.vips[k].reals) && Configured(s, k) == Configured(t, j)
    requires Names(s.pool.names, s.vips[k].reals) && Names(t.pool.names, t.vips[j].reals)
    ensures HasActive(t.vips[j].reals)
    ensures ActiveTags(s.pool.names, s.vips[k].reals) == ActiveTags(t.pool.names, t.vips[j].reals)
  {
    ConfiguredTags(c, s, k);
    ConfiguredTags(d, t, j);
    HasConfigured(s, k);
    hide PoolOk, HashesOk, Configured, ActiveTags, HasActive, Names;
    HasConfigured(t, j);
  }

  /** A VIP has an active real exactly when something is configured with nonzero weight. */
  lemma HasConfigured(s: Lb, k: VipKey)
    requires k in s.vips && Names(s.pool.names, s.vips[k].reals)
    ensures HasActive(s.vips[k].reals) <==> Configured(s, k) != {}
  {
    if n :| n in s.vips[k].reals && IsActive(s.vips[k].reals, n) {
      assert (s.pool.names[n], s.vips[k].reals[n].weight) in Configured(s, k);
    }
  }

  lemma AgreeInInv(c: Config, s: Lb, k: VipKey, d: Config, t: Lb, j: VipKey, h: nat)
    requires c.ringSize >= 2 && d.ringSize >= 2 && Inv(c, s) && Inv(d, t)
    requires d.ringSize == c.ringSize && d.murmur == c.murmur && d.hash == c.hash
    requires k in s.vips && j in t.vips && HasActive(s.vips[k].reals)
    requires Configured(s, k) == Configured(t, j) && HashesDiffer(c, Configured(s, k))
    ensures Def(c, k) in s.kernel.vipMap && Def(d, j) in t.kernel.vipMap
    ensures var m, n := RingReal(c, s, s.kernel.vipMap[Def(c, k)], h), RingReal(d, t, t.kernel.vipMap[Def(d, j)], h);
      && 0 <= m && m in s.pool.mirror && 0 <= n && n in t.pool.mirror
      && s.pool.mirror[m as nat] == t.pool.mirror[n as nat]
  {
    TablesVip(c, s, k);
    TablesVip(d, t, j);
    ConfiguredTags(c, s, k);
    ConfiguredTags(d, t, j);
    ActiveTransfers(c, s, k, d, t, j);
    LookupCell(c, s, k, h);
    LookupCell(d, t, j, h);
    hide TablesOk, InSync, HashesOk, SliceOk, Configured, ActiveTags, HasActive, Names, DistinctHashes, HashesDiffer;
    RingsAgree(s.vips[k], s.pool.names, t.vips[j], t.pool.names, c.ringSize, c.murmur, h % c.ringSize);
  }
}
