/**
 The load balancer object (KatranLb.cpp). Its methods update the tables in place and are
 proved to perform exactly the steps of the state machine in `ControlPlane`; the kernel maps
 are ghost fields.
 */
module LoadBalancer {
  import opened Options
  import opened Residues
  import opened Maglev
  import opened Vips
  import opened Allocator
  import opened Prefixes
  import opened ControlPlane
  import opened RefLeaks
  import opened TableSafety
  import opened Runs
  import opened Subscripts
  import opened Forwarding

  // ---------------------------------------------------------------------
  // What the methods need
  // ---------------------------------------------------------------------

  /** The batch returns: no ring has to be built, or building it ends. */
  ghost predicate CallReturns(c: Config, s: Lb, k: VipKey, action: ModifyAction, rs: seq<NewReal>)
    requires c.ringSize >= 2
  {
    k in s.vips ==> BatchReturns(s.vips[k].reals, WorkOf(c, s, k, action, rs).ureals, c.ringSize, c.murmur)
  }

  /** The numbers in a VIP's ring fit its signed entries. */
  lemma NumbersFit(c: Config, s: Lb, k: VipKey, action: ModifyAction, rs: seq<NewReal>)
    requires ConfigOk(c) && NumbersOk(c, s) && k in s.vips
    ensures forall n: nat :: IsActive(Apply(s.vips[k].reals, WorkOf(c, s, k, action, rs).ureals), n) ==> n < I32
  {
    var w := Work(s.pool, s.vips[k].reals.Keys, []);
    BatchBelow(c, action, w, rs);
    hide DoReals, Apply, VipNumbersOk, RulesOwned, PoolOk;
    ApplyBelow(s.vips[k].reals, DoReals(c, action, w, rs).ureals, c.maxReals);
  }

  ghost function NamesOf(m: map<nat, Option<Addr>>): map<nat, Addr> {
    map n | n in m && m[n].Some? :: m[n].value
  }

  ghost function BlankOf(m: map<nat, Option<Addr>>): set<nat> {
    set n | n in m && m[n].None?
  }

  lemma EntryWritten(m: map<nat, Option<Addr>>, n: nat, a: Addr)
    ensures NamesOf(m[n := Some(a)]) == NamesOf(m)[n := a] && BlankOf(m[n := Some(a)]) == BlankOf(m) - {n}
  {
  }

  lemma EntryErased(m: map<nat, Option<Addr>>, n: nat)
    ensures NamesOf(m - {n}) == NamesOf(m) - {n} && BlankOf(m - {n}) == BlankOf(m) - {n}
  {
  }

  lemma EntryRead(m: map<nat, Option<Addr>>, n: nat)
    ensures n !in m ==> NamesOf(m[n := None]) == NamesOf(m) && BlankOf(m[n := None]) == BlankOf(m) + {n}
    ensures n in m ==> BlankOf(m) + ({n} - NamesOf(m).Keys) == BlankOf(m)
    ensures n in NamesOf(m) <==> n in m && m[n].Some?
  {
  }

  lemma {:induction false} FindsNext(s: Lb, srcs: seq<Net>, i: nat)
    requires FindsAll(s, srcs) && i < |srcs|
    ensures var s1 := DelRules(s, srcs[..i]); srcs[i] in s1.rules ==> s1.rules[srcs[i]] in NumToReals(s1.pool)
  {
    if i < |srcs| - 1 {
      FindsNext(s, srcs[..|srcs| - 1], i);
      assert srcs[..|srcs| - 1][..i] == srcs[..i];
    }
  }

  /** The address a number leads to; empty for a free number. */
  function AddressOf(p: Pool, n: nat): Option<Addr> {
    if n in p.names then Some(p.names[n]) else None
  }

  lemma SubscriptNone(p: Pool)
    ensures Subscript(p, {}) == p
  {
  }

  lemma SubscriptNext(p: Pool, nums: set<nat>, n: nat)
    ensures Subscript(Subscript(p, nums), {n}) == Subscript(p, nums + {n})
  {
  }

  /** One more rule of a list without repetition, whose number has an entry. */
  lemma NextRuleCleared(s: Lb, srcs: seq<Net>, i: nat)
    requires Distinct(srcs) && Elements(srcs) <= s.rules.Keys && FindsAll(s, srcs) && i < |srcs|
    ensures var s1, s2 := DelRules(s, srcs[..i]), DelRules(s, srcs[..i + 1]);
      && srcs[i] in s.rules && s.rules[srcs[i]] in NumToReals(s1.pool)
      && s2.(rules := s.rules) == s1.(pool := ReleaseNumber(s1.pool, s.rules[srcs[i]]), rules := s.rules,
                                      kernel := s1.kernel.(rules := s1.kernel.rules - {KeyOf(srcs[i])}))
  {
    hide FindsAll, ReleaseNumber, KeyOf, NumToReals;
    assert srcs[..i + 1][..i] == srcs[..i] && srcs[i] in Elements(srcs);
    RulesGone(s, srcs[..i]);
    FindsNext(s, srcs, i);
  }

  /** What every method promises of its call. */
  lemma StepDone(c: Config, s: Lb, op: Op, s': Lb)
    requires c.ringSize >= 2 && NumbersOk(c, s) && Step(c, s, op, s')
    ensures NumbersOk(c, s')
    ensures TablesOk(c, s) && DistinctDeletes(c, op) ==> TablesOk(c, s')
    ensures Inv(c, s) && OpOk(c, s, op) ==> Inv(c, s')
  {
    hide NumbersOk, TablesOk, VipMapOk, DistinctDeletes, Step;
    StepKeepsNumbers(c, s, op, s');
    if TablesOk(c, s) && DistinctDeletes(c, op) {
      StepKeepsTables(c, s, op, s');
    }
    if Inv(c, s) && OpOk(c, s, op) {
      StepKeepsInv(c, s, op, s');
    }
  }

  lemma BatchIsStep(c: Config, s: Lb, k: VipKey, action: ModifyAction, rs: seq<NewReal>, s': Lb, v: VipState)
    requires c.ringSize >= 2 && k in s.vips && |s.vips[k].ring| == |v.ring|
    requires Batch(s.vips[k], WorkOf(c, s, k, action, rs).ureals, v, c.ringSize, c.murmur)
    requires s' == AfterBatch(c, s, k, WorkOf(c, s, k, action, rs), v)
    ensures ModifyRealsStep(c, s, k, action, rs, s')
  {
    hide WorkOf, Batch, PushDelta, Diff;
  }

  class KatranLb {
    const config: Config
    var vipNums: seq<nat>
    var realNums: seq<nat>
    var reals: map<Addr, RealMeta>
    var numToReals: map<nat, Option<Addr>>
    var quicMapping: map<Addr, nat>
    var lpmSrcMapping: map<Net, nat>
    var vips: map<VipKey, Vip>

    ghost var kernelReals: map<nat, Addr>
    ghost var kernel: Kernel

    ghost function PoolState(): Pool
      reads `realNums, `reals, `numToReals, `kernelReals
    {
      Pool(config.maxReals, realNums, reals, NamesOf(numToReals), kernelReals, BlankOf(numToReals))
    }

    ghost function VipStates(): map<VipKey, VipState>
      reads `vips, vips.Values
    {
      map k | k in vips :: vips[k].State()
    }

    ghost function State(): Lb
      reads this, vips.Values
    {
      Lb(PoolState(), vipNums, VipStates(), quicMapping, lpmSrcMapping, kernel)
    }

    ghost predicate Shape()
      reads `vips, vips.Values
    {
      && ConfigOk(config)
      && (forall k :: k in vips ==>
            vips[k].Valid() && vips[k].chRingSize == config.ringSize && vips[k].murmur == config.murmur)
      && (forall j, k :: j in vips && k in vips && j != k ==> vips[j] != vips[k])
    }

    /** What every call may rely on, whatever calls came before. */
    ghost predicate Valid()
      reads this, vips.Values
    {
      Shape() && NumbersOk(config, State())
    }

    constructor (config: Config)
      requires ConfigOk(config)
      ensures Valid() && this.config == config && State() == Init(config) && Inv(config, State())
    {
      this.config := config;
      vipNums := seq(config.maxVips, i => i);
      realNums := seq(config.maxReals, i => i);
      reals, numToReals, quicMapping, lpmSrcMapping, vips := map[], map[], map[], map[], map[];
      kernelReals, kernel := map[], Kernel(map[], map[], map[], map[]);
      new;
      assert VipStates() == map[];
      InitInv(config);
      InitNumbers(config);
    }

    /** An empty address is no real. */
    method DecreaseRefCountForReal(addr: Option<Addr>)
      modifies this`realNums, this`reals, this`numToReals
      ensures PoolState() == match addr case Some(a) => Release(old(PoolState()), a) case None => old(PoolState())
    {
      if addr.None? || addr.value !in reals {
        return;
      }
      var meta := reals[addr.value];
      if meta.refCount <= 1 {
        EntryErased(numToReals, meta.num);
        realNums := realNums + [meta.num];
        reals := reals - {addr.value};
        numToReals := numToReals - {meta.num};
      } else {
        reals := reals[addr.value := RealMeta(meta.num, meta.refCount - 1)];
      }
    }

    method IncreaseRefCountForReal(addr: Addr) returns (num: nat)
      modifies this`realNums, this`reals, this`numToReals, this`kernelReals
      ensures PoolState() == Acquire(old(PoolState()), addr)
      ensures num == NumberFor(old(PoolState()), addr)
    {
      if addr in reals {
        reals := reals[addr := RealMeta(reals[addr].num, reals[addr].refCount + 1)];
        return reals[addr].num;
      }
      if |realNums| == 0 {
        return config.maxReals;
      }
      num := realNums[0];
      realNums := realNums[1..];
      EntryWritten(numToReals, num, addr);
      numToReals := numToReals[num := Some(addr)];
      reals := reals[addr := RealMeta(num, 1)];
      kernelReals := kernelReals[num := addr];
    }

    /** The subscript operator of numToReals_: a missing entry is created with an empty address. */
    method ReadNumToReals(num: nat) returns (addr: Option<Addr>)
      modifies this`numToReals
      ensures PoolState() == Subscript(old(PoolState()), {num})
      ensures addr == if num in old(numToReals) then old(numToReals)[num] else None
    {
      EntryRead(numToReals, num);
      if num !in numToReals {
        numToReals := numToReals[num := None];
      }
      addr := numToReals[num];
    }

    /** Reads the real of a number and gives one reference back. */
    method ReleaseReal(num: nat)
      modifies this`realNums, this`reals, this`numToReals
      ensures PoolState() == ReleaseNumber(old(PoolState()), num)
    {
      EntryRead(numToReals, num);
      ghost var p := PoolState();
      var addr := ReadNumToReals(num);
      assert num in p.names ==> Subscript(p, {num}) == p && addr == Some(p.names[num]);
      DecreaseRefCountForReal(addr);
    }

    method AddVip(key: VipKey, flags: bv32) returns (ok: bool)
      requires Valid()
      modifies this`vipNums, this`vips, this`kernel
      ensures Valid() && Step(config, old(State()), Op.AddVip(key, flags), State())
      ensures old(Inv(config, State()) && OpOk(config, State(), Op.AddVip(key, flags))) ==> Inv(config, State())
      ensures ok <==> old(vipNums) != [] && key !in old(vips) && config.parse(key.address).Some?
    {
      assert ConfigOk(config);
      hide Inv, NumbersOk, OpOk, Shape, VipStates, DelVipStep, ModifyRealsStep, ClearStep;
      hide AddRules, DelRules, QuicAll, DoModifyVip;
      ghost var s := State();
      VipStatesKeys();
      if config.parse(key.address).None? || |vipNums| == 0 || key in vips {
        ok := false;
      } else {
        InstallVip(key, flags);
        ok := true;
      }
      hide DoAddVip;
      StepDone(config, s, Op.AddVip(key, flags), State());
    }

    /** Gives the next free number to a new VIP and tells the kernel. */
    method InstallVip(key: VipKey, flags: bv32)
      requires Shape() && config.parse(key.address).Some? && vipNums != [] && key !in vips
      modifies this`vipNums, this`vips, this`kernel
      ensures Shape() && State() == DoAddVip(config, old(State()), key, flags)
    {
      VipStatesKeys();
      hide Def, EmptyRing, Shape, VipStates;
      var vipNum := vipNums[0];
      vipNums := vipNums[1..];
      CreateVip(key, vipNum, flags);
      kernel := kernel.(vipMap := kernel.vipMap[Def(config, key) := VipMeta(flags, vipNum)]);
    }

    method CreateVip(key: VipKey, vipNum: nat, flags: bv32)
      requires Shape() && key !in vips
      modifies this`vips
      ensures Shape()
      ensures VipStates() == old(VipStates())[key := VipState(vipNum, flags, map[], EmptyRing(config.ringSize))]
    {
      hide EmptyRing;
      var vip := new Vip(vipNum, flags, config.ringSize, config.murmur);
      vips := vips[key := vip];
    }

    method DelVip(key: VipKey) returns (ok: bool)
      requires Valid()
      modifies this`realNums, this`reals, this`numToReals, this`vipNums, this`vips, this`kernel
      ensures Valid() && Step(config, old(State()), Op.DelVip(key), State())
      ensures old(Inv(config, State()) && OpOk(config, State(), Op.DelVip(key))) ==> Inv(config, State())
      ensures ok <==> key in old(vips)
    {
      hide Inv, NumbersOk, Def, ModifyRealsStep, ClearStep, AddRules, DelRules, QuicAll;
      hide DoModifyVip, DoAddVip;
      assert ConfigOk(config);
      ghost var s := State();
      VipStatesKeys();
      if key !in vips {
        return false;
      }
      var vipReals := vips[key].GetReals();
      assert Enumerates(vipReals, s.vips[key].reals.Keys);
      hide Shape, VipStates, Enumerates, DoDelVip, ConfigOk;
      RemoveVip(key, vipReals);
      StepDone(config, s, Op.DelVip(key), State());
      return true;
    }

    /** Releases the VIP's reals, gives its number back and forgets it. */
    method RemoveVip(key: VipKey, vipReals: seq<nat>)
      requires Shape() && key in vips && key in State().vips
      modifies this`realNums, this`reals, this`numToReals, this`vipNums, this`vips, this`kernel
      ensures Shape() && State() == DoDelVip(config, old(State()), key, vipReals)
    {
      VipStatesKeys();
      hide Def, ReleaseAll, Shape, VipStates;
      ReleaseReals(vipReals, key);
      vipNums := vipNums + [vips[key].vipNum];
      kernel := kernel.(vipMap := kernel.vipMap - {Def(config, key)});
      ForgetVip(key);
    }

    method ForgetVip(key: VipKey)
      requires Shape() && key in vips
      modifies this`vips
      ensures Shape() && VipStates() == old(VipStates()) - {key}
    {
      vips := vips - {key};
    }

    /** The loop of delVip: one reference down per real of the VIP. */
    method ReleaseReals(nums: seq<nat>, ghost key: VipKey)
      modifies this`realNums, this`reals, this`numToReals
      ensures PoolState() == ReleaseAll(old(PoolState()), nums)
    {
      for i := 0 to |nums|
        invariant PoolState() == ReleaseAll(old(PoolState()), nums[..i])
      {
        assert nums[..i + 1][..i] == nums[..i];
        ReleaseReal(nums[i]);
      }
      assert nums[..|nums|] == nums;
    }

    method ModifyVip(key: VipKey, flag: bv32, on: bool) returns (ok: bool)
      requires Valid()
      modifies this`kernel, vips.Values`vipFlags
      ensures Valid() && Step(config, old(State()), Op.ModifyVip(key, flag, on), State())
      ensures old(Inv(config, State()) && OpOk(config, State(), Op.ModifyVip(key, flag, on))) ==> Inv(config, State())
      ensures ok <==> key in vips
    {
      assert ConfigOk(config);
      hide Inv, NumbersOk, Shape, VipStates, NewFlags, DelVipStep, ModifyRealsStep, ClearStep;
      hide AddRules, DelRules, QuicAll, DoAddVip;
      ghost var s := State();
      if key !in vips {
        ok := false;
        VipStatesKeys();
      } else {
        SetFlags(vips[key], key, flag, on);
        ok := true;
      }
      hide DoModifyVip;
      StepDone(config, s, Op.ModifyVip(key, flag, on), State());
    }

    lemma VipStatesKeys()
      ensures VipStates().Keys == vips.Keys
      ensures forall k :: k in vips ==> VipStates()[k] == vips[k].State()
    {
    }

    /** Changes the flags of a configured VIP, here and in the kernel. */
    method SetFlags(vip: Vip, key: VipKey, flag: bv32, on: bool)
      requires Shape() && key in vips && vips[key] == vip
      modifies this`kernel, vip`vipFlags
      ensures Shape() && State() == DoModifyVip(config, old(State()), key, flag, on)
    {
      VipStatesKeys();
      hide Shape, VipStates, NewFlags, Def;
      ghost var v := ChangeFlags(vip, flag, on, key);
      kernel := kernel.(vipMap := kernel.vipMap[Def(config, key) := VipMeta(vip.vipFlags, vip.vipNum)]);
    }

    method ChangeFlags(vip: Vip, flag: bv32, on: bool, ghost key: VipKey) returns (ghost v: VipState)
      requires Shape() && key in vips && vips[key] == vip
      modifies vip`vipFlags
      ensures Shape() && VipStates() == old(VipStates())[key := v] && v == vip.State()
      ensures v == old(vip.State()).(flags := NewFlags(old(vip.vipFlags), flag, on))
    {
      hide NewFlags;
      if on {
        vip.SetVipFlags(flag);
      } else {
        vip.UnsetVipFlags(flag);
      }
      v := vip.State();
    }

    /** The loop over a batch: reference counts and the list of updates for the VIP. */
    method CollectUpdates(action: ModifyAction, newReals: seq<NewReal>, curReals: seq<nat>)
      returns (ureals: seq<UpdateReal>, ghost work: Work)
      modifies this`realNums, this`reals, this`numToReals, this`kernelReals
      ensures work == DoReals(config, action, Work(old(PoolState()), Elements(curReals), []), newReals)
      ensures PoolState() == work.pool && ureals == work.ureals
    {
      ureals := [];
      var cur := curReals;
      work := Work(PoolState(), Elements(cur), []);
      for i := 0 to |newReals|
        invariant work == DoReals(config, action, Work(old(PoolState()), Elements(curReals), []), newReals[..i])
        invariant PoolState() == work.pool && ureals == work.ureals && Elements(cur) == work.cur
      {
        assert newReals[..i + 1][..i] == newReals[..i];
        ghost var before := work;
        cur, ureals := CollectOne(action, newReals[i], cur, ureals, before);
        work := DoOne(config, action, before, newReals[i]);
      }
      assert newReals[..|newReals|] == newReals;
    }

    method CollectOne(action: ModifyAction, r: NewReal, cur: seq<nat>, ureals: seq<UpdateReal>, ghost w: Work)
      returns (cur': seq<nat>, ureals': seq<UpdateReal>)
      requires w == Work(PoolState(), Elements(cur), ureals)
      modifies this`realNums, this`reals, this`numToReals, this`kernelReals
      ensures Work(PoolState(), Elements(cur'), ureals') == DoOne(config, action, w, r)
    {
      cur', ureals' := cur, ureals;
      if config.parse(r.address).None? {
        return;
      }
      var raddr := config.parse(r.address).value;
      if action == Del {
        if raddr !in reals || reals[raddr].num !in cur {
          return;
        }
        ureals' := ureals + [UpdateReal(Del, Endpoint(reals[raddr].num, 0, 0))];
        DecreaseRefCountForReal(Some(raddr));
      } else {
        var num;
        if raddr in reals {
          num := reals[raddr].num;
          if num !in cur {
            var _ := IncreaseRefCountForReal(raddr);
            cur' := cur + [num];
            assert Elements(cur') == Elements(cur) + {num};
          }
        } else {
          num := IncreaseRefCountForReal(raddr);
          if num == config.maxReals {
            return;
          }
        }
        ureals' := ureals + [UpdateReal(Add, Endpoint(num, r.weight, config.hash(raddr)))];
      }
    }

    method ModifyRealsForVip(action: ModifyAction, newReals: seq<NewReal>, key: VipKey) returns (ok: bool)
      requires Valid() && CallReturns(config, State(), key, action, newReals)
      modifies this`realNums, this`reals, this`numToReals, this`kernelReals, this`kernel
      modifies vips.Values`reals, vips.Values`chRing
      ensures Valid() && Step(config, old(State()), ModifyReals(key, action, newReals), State())
      ensures old(Inv(config, State()) && OpOk(config, State(), ModifyReals(key, action, newReals))) ==>
        Inv(config, State())
      ensures ok <==> key in vips
    {
      assert ConfigOk(config) && config.ringSize >= 2;
      hide Inv, NumbersOk, OpOk, Shape, VipStates, DelVipStep, ClearStep, AddRules, DelRules;
      hide QuicAll, DoModifyVip, DoAddVip;
      ghost var s := State();
      VipStatesKeys();
      if key !in vips {
        ok := false;
      } else {
        NumbersFit(config, s, key, action, newReals);
        hide ModifyRealsStep;
        RunBatch(vips[key], action, newReals, key);
        ok := true;
      }
      StepDone(config, s, ModifyReals(key, action, newReals), State());
    }

    /** The whole batch on a configured VIP: counts, ring and kernel cells. */
    method RunBatch(vip: Vip, action: ModifyAction, newReals: seq<NewReal>, key: VipKey)
      requires Shape() && key in vips && vips[key] == vip
      requires CallReturns(config, State(), key, action, newReals)
      requires forall n: nat ::
        IsActive(Apply(State().vips[key].reals, WorkOf(config, State(), key, action, newReals).ureals), n) ==> n < I32
      modifies this`realNums, this`reals, this`numToReals, this`kernelReals, this`kernel
      modifies vip`reals, vip`chRing
      ensures Shape() && ModifyRealsStep(config, old(State()), key, action, newReals, State())
    {
      hide Apply, DoReals, PushDelta, Diff, Batch, BatchReturns;
      VipStatesKeys();
      assert config.ringSize >= 2;
      hide Shape, VipStates;
      ghost var s := State();
      var curReals := vip.GetReals();
      var ureals;
      ghost var work;
      ureals, work := CollectUpdates(action, newReals, curReals);
      assert work == WorkOf(config, s, key, action, newReals);
      hide WorkOf, ConfigOk, ModifyRealsStep;
      assert VipStates() == s.vips && s.vips[key] == vip.State() && State() == s.(pool := work.pool);
      ghost var v := UpdateRing(vip, ureals, key);
      assert PoolState() == work.pool && State().vips == s.vips[key := v] && vipNums == s.vipNums;
      assert State() == AfterBatch(config, s, key, work, v);
      BatchIsStep(config, s, key, action, newReals, State(), v);
    }

    /** Applies the updates to the VIP and writes the changed ring cells to the kernel. */
    method UpdateRing(vip: Vip, ureals: seq<UpdateReal>, ghost key: VipKey) returns (ghost v: VipState)
      requires Shape() && key in vips && vips[key] == vip
      requires BatchReturns(vip.reals, ureals, config.ringSize, config.murmur)
      requires forall n: nat :: IsActive(Apply(vip.reals, ureals), n) ==> n < I32
      modifies this`kernel, vip`reals, vip`chRing
      ensures Shape() && VipStates() == old(VipStates())[key := v]
      ensures Batch(old(vip.State()), ureals, v, config.ringSize, config.murmur) && |v.ring| == |old(vip.chRing)|
      ensures kernel == old(kernel).(rings := PushDelta(old(kernel.rings), v.num * config.ringSize,
                                                        Diff(old(vip.chRing), v.ring, |v.ring|)))
    {
      hide Apply, PushDelta, Diff, Batch, BatchReturns;
      var chPositions;
      chPositions, v := UpdateVip(vip, ureals, key);
      PushPositions(vip.vipNum, chPositions);
    }

    method UpdateVip(vip: Vip, ureals: seq<UpdateReal>, ghost key: VipKey)
      returns (delta: seq<RealPos>, ghost v: VipState)
      requires Shape() && key in vips && vips[key] == vip
      requires BatchReturns(vip.reals, ureals, config.ringSize, config.murmur)
      requires forall n: nat :: IsActive(Apply(vip.reals, ureals), n) ==> n < I32
      modifies vip`reals, vip`chRing
      ensures Shape() && VipStates() == old(VipStates())[key := v] && v == vip.State()
      ensures Batch(old(vip.State()), ureals, v, config.ringSize, config.murmur)
      ensures |v.ring| == |old(vip.chRing)|
      ensures delta == Diff(old(vip.chRing), v.ring, |v.ring|)
    {
      hide BatchReturns, Apply, Diff, Batch;
      delta := vip.BatchRealsUpdate(ureals);
      v := vip.State();
    }

    /** Writes the changed ring cells to the kernel. */
    method PushPositions(vipNum: nat, delta: seq<RealPos>)
      modifies this`kernel
      ensures kernel == old(kernel).(rings := PushDelta(old(kernel.rings), vipNum * config.ringSize, delta))
    {
      for i := 0 to |delta|
        invariant kernel == old(kernel).(rings := PushDelta(old(kernel.rings), vipNum * config.ringSize, delta[..i]))
      {
        assert delta[..i + 1][..i] == delta[..i];
        var cell := vipNum * config.ringSize + delta[i].pos;
        kernel := kernel.(rings := kernel.rings[cell := delta[i].realNum]);
      }
      assert delta[..|delta|] == delta;
    }

    /** Returns false where the code returns an error. */
    method AddSrcRoutingRule(srcs: seq<Net>, dst: string) returns (ok: bool)
      requires Valid()
      modifies this`realNums, this`reals, this`numToReals, this`kernelReals, this`lpmSrcMapping, this`kernel
      ensures config.parse(dst).None? ==> !ok && State() == old(State())
      ensures config.parse(dst).Some? ==>
        && Step(config, old(State()), AddSrcRules(srcs, config.parse(dst).value), State())
        && ok == AddRules(config, old(State()), srcs, config.parse(dst).value).1
      ensures Valid() && (old(Inv(config, State())) ==> Inv(config, State()))
    {
      hide Inv, NumbersOk, Def, DelVipStep, ModifyRealsStep, ClearStep, DelRules, QuicAll;
      hide DoModifyVip, DoAddVip;
      assert config.parse(dst).Some? ==> AddRules(config, State(), [], config.parse(dst).value) == (State(), true);
      hide Acquire, NumberFor, AddRule, AddRules, VipStates;
      if config.parse(dst).None? {
        return false;
      }
      ghost var s := State();
      var addr := config.parse(dst).value;
      ok := true;
      var i := 0;
      while i < |srcs| && ok
        invariant 0 <= i <= |srcs| && VipStates() == s.vips
        invariant (State(), ok) == AddRules(config, s, srcs[..i], addr)
      {
        assert srcs[..i + 1] == srcs[..i] + [srcs[i]];
        AddRulesAppend(config, s, srcs[..i], srcs[i], addr);
        ok := InstallRule(srcs[i], addr);
        i := i + 1;
      }
      RulesStopped(config, s, srcs, i, addr);
      StepDone(config, s, AddSrcRules(srcs, addr), State());
    }

    /** One prefix: fails when the table is full or the destination gets no number. */
    method InstallRule(src: Net, addr: Addr) returns (ok: bool)
      modifies this`realNums, this`reals, this`numToReals, this`kernelReals, this`lpmSrcMapping, this`kernel
      ensures VipStates() == old(VipStates())
      ensures (State(), ok) ==
        var s := old(State());
        if |s.rules| + 1 > config.maxRules then (s, false)
        else if NumberFor(s.pool, addr) == config.maxReals then (s.(pool := Acquire(s.pool, addr)), false)
        else (AddRule(s, src, addr), true)
    {
      hide Acquire, NumberFor;
      if |lpmSrcMapping| + 1 > config.maxRules {
        return false;
      }
      var num := IncreaseRefCountForReal(addr);
      if num == config.maxReals {
        return false;
      }
      lpmSrcMapping := lpmSrcMapping[src := num];
      kernel := kernel.(rules := kernel.rules[KeyOf(src) := num]);
      return true;
    }

    method DelSrcRoutingRule(srcs: seq<Net>) returns (ok: bool)
      requires Valid()
      modifies this`realNums, this`reals, this`numToReals, this`lpmSrcMapping, this`kernel
      ensures ok && Valid() && Step(config, old(State()), DelSrcRules(srcs), State())
      ensures old(Inv(config, State())) ==> Inv(config, State())
    {
      hide Inv, NumbersOk, DelVipStep, ModifyRealsStep, ClearStep, AddRules, DelRules, QuicAll;
      hide DoModifyVip, DoAddVip;
      ghost var s := State();
      DeleteRules(srcs);
      StepDone(config, s, DelSrcRules(srcs), State());
      return true;
    }

    method DeleteRules(srcs: seq<Net>)
      modifies this`realNums, this`reals, this`numToReals, this`lpmSrcMapping, this`kernel
      ensures State() == DelRules(old(State()), srcs)
    {
      hide ReleaseNumber, KeyOf;
      for i := 0 to |srcs|
        invariant VipStates() == old(VipStates())
        invariant State() == DelRules(old(State()), srcs[..i])
      {
        assert srcs[..i + 1][..i] == srcs[..i];
        var src := srcs[i];
        if src in lpmSrcMapping {
          ReleaseReal(lpmSrcMapping[src]);
          kernel := kernel.(rules := kernel.rules - {KeyOf(src)});
          lpmSrcMapping := lpmSrcMapping - {src};
        }
      }
      assert srcs[..|srcs|] == srcs;
    }

    /** Every rule is deleted, in whatever order the hash map yields them. */
    method ClearAllSrcRoutingRules() returns (ok: bool)
      requires Valid() && ClearDefined(State())
      modifies this`realNums, this`reals, this`numToReals, this`lpmSrcMapping, this`kernel
      ensures ok && Valid() && Step(config, old(State()), ClearSrcRules, State()) && lpmSrcMapping == map[]
      ensures old(Inv(config, State())) ==> Inv(config, State())
    {
      hide Inv, NumbersOk, DelVipStep, ModifyRealsStep, AddRules, DelRules, QuicAll, DoModifyVip, DoAddVip, FindsAll;
      assert config.ringSize >= 2;
      hide ClearDefined, PoolState, Shape;
      ghost var s := State();
      var srcs := RulesInOrder();
      assert PoolOk(s.pool) by { PoolOfNumbers(config, s); }
      ClearDefinedIff(s, srcs);
      ReleaseRules(srcs);
      lpmSrcMapping := map[];
      RulesGone(s, srcs);
      assert State() == DelRules(s, srcs);
      assert ClearStep(s, State());
      hide ClearStep, PoolOk;
      StepDone(config, s, ClearSrcRules, State());
      return true;
    }

    method RulesInOrder() returns (srcs: seq<Net>)
      ensures Elements(srcs) == lpmSrcMapping.Keys && Distinct(srcs)
    {
      srcs := [];
      var todo := lpmSrcMapping.Keys;
      while todo != {}
        invariant todo <= lpmSrcMapping.Keys && Elements(srcs) == lpmSrcMapping.Keys - todo && Distinct(srcs)
        decreases todo
      {
        var src :| src in todo;
        srcs, todo := srcs + [src], todo - {src};
      }
    }

    /** The loop of clearAllSrcRoutingRules, which dereferences what it finds. */
    method ReleaseRules(srcs: seq<Net>)
      requires Distinct(srcs) && Elements(srcs) <= lpmSrcMapping.Keys && FindsAll(State(), srcs)
      modifies this`realNums, this`reals, this`numToReals, this`kernel
      ensures State() == DelRules(old(State()), srcs).(rules := old(lpmSrcMapping))
    {
      ghost var s := State();
      hide FindsAll, ReleaseNumber, KeyOf, PoolState, NumToReals;
      for i := 0 to |srcs|
        invariant VipStates() == s.vips
        invariant State() == DelRules(s, srcs[..i]).(rules := s.rules)
      {
        NextRuleCleared(s, srcs, i);
        hide DelRules, DelRule, Distinct;
        var num := lpmSrcMapping[srcs[i]];
        ReleaseFound(num);
        kernel := kernel.(rules := kernel.rules - {KeyOf(srcs[i])});
      }
      assert srcs[..|srcs|] == srcs;
    }

    /** A number that is known to have an entry. */
    method ReleaseFound(num: nat)
      requires num in NumToReals(PoolState())
      modifies this`realNums, this`reals, this`numToReals
      ensures PoolState() == ReleaseNumber(old(PoolState()), num)
    {
      EntryRead(numToReals, num);
      DecreaseRefCountForReal(numToReals[num]);
    }

    /** The reals of a VIP with their weights; reading a free number gives an empty address and stores it. */
    method GetRealsForVip(key: VipKey) returns (r: Option<seq<(Option<Addr>, nat)>>, ghost nums: seq<nat>)
      requires Valid()
      modifies this`numToReals
      ensures Valid() && Step(config, old(State()), Op.GetReals(key), State())
      ensures r.Some? <==> key in vips
      ensures r.Some? ==> Enumerates(nums, vips[key].reals.Keys) && |r.value| == |nums|
      ensures r.Some? ==> forall i :: 0 <= i < |nums| && nums[i] in vips[key].reals ==>
        r.value[i] == (AddressOf(old(PoolState()), nums[i]), vips[key].reals[nums[i]].weight)
    {
      VipStatesKeys();
      hide NumbersOk, Subscript, VipStates, AddressOf, Inv, TablesOk;
      ghost var s := State();
      nums := [];
      if key !in vips {
        StepDone(config, s, Op.GetReals(key), State());
        return None, nums;
      }
      var ids := vips[key].GetReals();
      nums := ids;
      var reals := ReadAll(vips[key], ids);
      StepDone(config, s, Op.GetReals(key), State());
      r := Some(reals);
    }

    method ReadAll(vip: Vip, ids: seq<nat>) returns (r: seq<(Option<Addr>, nat)>)
      requires Elements(ids) <= vip.reals.Keys
      modifies this`numToReals
      ensures PoolState() == Subscript(old(PoolState()), Elements(ids)) && |r| == |ids|
      ensures forall i :: 0 <= i < |ids| && ids[i] in vip.reals ==>
        r[i] == (AddressOf(old(PoolState()), ids[i]), vip.reals[ids[i]].weight)
    {
      hide Subscript, AddressOf;
      ghost var p := PoolState();
      r := [];
      SubscriptNone(p);
      assert Elements(ids[..0]) == {};
      for i := 0 to |ids|
        invariant |r| == i && PoolState() == Subscript(p, Elements(ids[..i]))
        invariant forall j :: 0 <= j < i && ids[j] in vip.reals ==>
          r[j] == (AddressOf(p, ids[j]), vip.reals[ids[j]].weight)
      {
        assert ids[i] in Elements(ids);
        assert Elements(ids[..i + 1]) == Elements(ids[..i]) + {ids[i]};
        SubscriptNext(p, Elements(ids[..i]), ids[i]);
        AddressRead(ids[i], p, Elements(ids[..i]));
        var addr := ReadNumToReals(ids[i]);
        r := r + [(addr, vip.reals[ids[i]].weight)];
      }
      assert ids[..|ids|] == ids;
    }

    /** Where the source rules lead. */
    method GetSrcRoutingRule() returns (r: map<Net, Option<Addr>>)
      requires Valid()
      modifies this`numToReals
      ensures Valid() && Step(config, old(State()), GetSrcRules, State())
      ensures r.Keys == lpmSrcMapping.Keys
      ensures forall src :: src in r ==> r[src] == AddressOf(old(PoolState()), lpmSrcMapping[src])
    {
      VipStatesKeys();
      ghost var s, p, nums := State(), PoolState(), {};
      r := map[];
      var todo := lpmSrcMapping.Keys;
      hide NumbersOk, Subscript, VipStates, AddressOf;
      SubscriptNone(p);
      while todo != {}
        invariant Shape() && VipStates() == s.vips && todo <= lpmSrcMapping.Keys && r.Keys == lpmSrcMapping.Keys - todo
        invariant PoolState() == Subscript(p, nums) && nums <= lpmSrcMapping.Values
        invariant forall src :: src in r ==> r[src] == AddressOf(p, lpmSrcMapping[src]) && lpmSrcMapping[src] in nums
        decreases todo
      {
        var src :| src in todo;
        var num := lpmSrcMapping[src];
        SubscriptNext(p, nums, num);
        AddressRead(num, p, nums);
        var addr := ReadNumToReals(num);
        nums := nums + {num};
        r, todo := r[src := addr], todo - {src};
      }
      assert nums == lpmSrcMapping.Values;
      StepDone(config, s, GetSrcRules, State());
    }

    lemma AddressRead(num: nat, p: Pool, nums: set<nat>)
      requires PoolState() == Subscript(p, nums)
      ensures (if num in numToReals then numToReals[num] else None) == AddressOf(p, num)
    {
      EntryRead(numToReals, num);
      assert NamesOf(numToReals) == p.names;
    }

    method ModifyQuicRealsMapping(action: ModifyAction, quicReals: seq<QuicReal>)
      requires Valid()
      modifies this`realNums, this`reals, this`numToReals, this`kernelReals, this`quicMapping, this`kernel
      ensures Valid() && Step(config, old(State()), ModifyQuic(action, quicReals), State())
      ensures old(Inv(config, State())) ==> Inv(config, State())
    {
      hide Inv, NumbersOk, QuicOne, DelVipStep, ModifyRealsStep, ClearStep, AddRules, DelRules;
      hide DoModifyVip, DoAddVip, PoolState;
      ghost var s := State();
      for i := 0 to |quicReals|
        invariant VipStates() == s.vips
        invariant State() == QuicAll(config, action, s, quicReals[..i])
      {
        assert quicReals[..i + 1][..i] == quicReals[..i];
        ModifyQuicReal(action, quicReals[i]);
      }
      assert quicReals[..|quicReals|] == quicReals;
      hide QuicAll;
      StepDone(config, s, ModifyQuic(action, quicReals), State());
    }

    method ModifyQuicReal(action: ModifyAction, q: QuicReal)
      modifies this`realNums, this`reals, this`numToReals, this`kernelReals, this`quicMapping, this`kernel
      ensures State() == QuicOne(config, action, old(State()), q)
    {
      if config.parse(q.address).None? || q.id > MAX_QUIC_ID {
        return;
      }
      var raddr := config.parse(q.address).value;
      if action == Del {
        if raddr !in quicMapping {
          return;
        }
        DecreaseRefCountForReal(Some(raddr));
        quicMapping := quicMapping - {raddr};
      } else {
        if raddr in quicMapping {
          return;
        }
        var num := IncreaseRefCountForReal(raddr);
        if num == config.maxReals {
          return;
        }
        quicMapping := quicMapping[raddr := q.id];
        kernel := kernel.(quic := kernel.quic[q.id := num]);
      }
    }
  }

  /** Once adding rules failed, the rest of the list changes nothing. */
  lemma {:induction false} RulesStopped(c: Config, s: Lb, srcs: seq<Net>, i: nat, dst: Addr)
    requires i <= |srcs| && (i < |srcs| ==> !AddRules(c, s, srcs[..i], dst).1)
    ensures AddRules(c, s, srcs, dst) == AddRules(c, s, srcs[..i], dst)
  {
    if i == |srcs| {
      assert srcs[..i] == srcs;
    } else {
      var front := srcs[..|srcs| - 1];
      assert front[..i] == srcs[..i];
      RulesStopped(c, s, front, i, dst);
    }
  }
}
