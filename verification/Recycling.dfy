/**
 What the leaks come to, on runs from the empty load balancer: a VIP whose traffic goes to
 another VIP's real, an empty address in numToReals_, a number lost for good, rules that
 cannot be cleared, and VIPs and rules the kernel has forgotten. The runs exist for every ring
 size, hash function and choice of names.
 */
module Recycling {
  import opened Options
  import opened Residues
  import opened Maglev
  import opened Vips
  import opened Allocator
  import opened Prefixes
  import opened ControlPlane
  import opened TableSafety
  import opened Runs
  import opened Subscripts
  import opened Forwarding

  /** One real number, room for two VIPs, and four names that parse to different things. */
  ghost predicate Scene(c: Config, a: string, b: string, k: VipKey, j: VipKey) {
    && ConfigOk(c) && c.maxReals == 1 && c.maxVips >= 2
    && c.parse(a).Some? && c.parse(b).Some? && c.parse(a) != c.parse(b)
    && k != j && c.parse(k.address).Some? && c.parse(j.address).Some? && Def(c, k) != Def(c, j)
  }

  function Zeros(size: nat): (r: seq<int>)
    ensures |r| == size && forall i :: 0 <= i < size ==> r[i] == 0
  {
    seq(size, _ => 0)
  }

  /** The ring of a single real with number 0. */
  lemma OneRealRing(c: Config, h: nat)
    requires c.ringSize >= 2
    ensures RingOf(Zeros(c.ringSize), map[0 := VipRealMeta(1, h)], c.ringSize, c.murmur)
  {
    var reals := map[0 := VipRealMeta(1, h)];
    var es := [Endpoint(0, 1, h)];
    assert Lists(es, reals);
    assert MaglevRing(es, c.ringSize, c.murmur) == Zeros(c.ringSize);
  }

  /** A VIP that holds number 0 with weight 1. */
  ghost function Holder(c: Config, v: VipState, h: nat): VipState {
    v.(reals := map[0 := VipRealMeta(1, h)], ring := Zeros(c.ringSize))
  }

  ghost function Update(a: ModifyAction, h: nat): UpdateReal {
    UpdateReal(a, Endpoint(0, if a == Add then 1 else 0, h))
  }

  /** Adding number 0 to a VIP without reals. */
  lemma JoinBatch(c: Config, v: VipState, h: nat)
    requires c.ringSize >= 2 && v.reals == map[]
    ensures Batch(v, [Update(Add, h)], Holder(c, v, h), c.ringSize, c.murmur)
  {
    var us := [Update(Add, h)];
    assert us[..0] == [];
    assert Apply(v.reals, us) == map[0 := VipRealMeta(1, h)];
    OneRealRing(c, h);
    assert IsActive(map[0 := VipRealMeta(1, h)], 0);
  }

  /** Deleting number 0 empties the VIP and leaves its ring alone. */
  lemma LeaveBatch(c: Config, v: VipState, h: nat, us: seq<UpdateReal>)
    requires c.ringSize >= 2 && v.reals.Keys == {0}
    requires us == [Update(Del, 0)] || us == [Update(Del, 0), Update(Del, 0)]
    ensures Batch(v, us, v.(reals := map[]), c.ringSize, c.murmur)
  {
    assert us[..1][..0] == [] && us[..1] == [Update(Del, 0)];
    assert Apply(v.reals, us[..1]) == map[];
    assert Apply(v.reals, us) == map[];
  }

  // ---------------------------------------------------------------------
  // Batches on the pool with one number
  // ---------------------------------------------------------------------

  /** The pool when `a` holds the number with so many references. */
  function Held1(a: Addr, refs: nat): Pool {
    Pool(1, [], map[a := RealMeta(0, refs)], map[0 := a], map[0 := a], {})
  }

  /** The pool when the number is free and the kernel last knew it as `a`. */
  function Free1(a: Addr): Pool {
    Pool(1, [0], map[], map[], map[0 := a], {})
  }

  lemma OneReal(c: Config, action: ModifyAction, w: Work, r: NewReal)
    ensures DoReals(c, action, w, [r]) == DoOne(c, action, w, r)
  {
    assert [r][..0] == [];
  }

  lemma TwoReals(c: Config, action: ModifyAction, w: Work, r: NewReal)
    ensures DoReals(c, action, w, [r, r]) == DoOne(c, action, DoOne(c, action, w, r), r)
  {
    assert [r, r][..1] == [r];
    OneReal(c, action, w, r);
  }

  lemma AddFresh(c: Config, p: Pool, cur: set<nat>, a: string, x: Addr)
    requires c.parse(a) == Some(x) && p.max == 1 && p.free == [0] && p.reals == map[] && p.names == map[]
    requires p.mirror.Keys <= {0} && p.blank == {}
    ensures DoReals(c, Add, Work(p, cur, []), [NewReal(a, 1)]) == Work(Held1(x, 1), cur, [Update(Add, c.hash(x))])
  {
    OneReal(c, Add, Work(p, cur, []), NewReal(a, 1));
    assert p.mirror[0 := x] == map[0 := x] && p.blank - {0} == {};
  }

  lemma AddHeld(c: Config, a: string, x: Addr)
    requires c.parse(a) == Some(x)
    ensures var w := DoReals(c, Add, Work(Held1(x, 1), {}, []), [NewReal(a, 1)]);
      w.pool == Held1(x, 2) && w.ureals == [Update(Add, c.hash(x))]
  {
    OneReal(c, Add, Work(Held1(x, 1), {}, []), NewReal(a, 1));
  }

  lemma DelTwice(c: Config, a: string, x: Addr)
    requires c.parse(a) == Some(x)
    ensures var w := DoReals(c, Del, Work(Held1(x, 2), {0}, []), [NewReal(a, 1), NewReal(a, 1)]);
      w.pool == Free1(x) && w.ureals == [Update(Del, 0), Update(Del, 0)]
  {
    TwoReals(c, Del, Work(Held1(x, 2), {0}, []), NewReal(a, 1));
    var w1 := DoOne(c, Del, Work(Held1(x, 2), {0}, []), NewReal(a, 1));
    assert w1 == Work(Held1(x, 1), {0}, [Update(Del, 0)]);
  }

  // ---------------------------------------------------------------------
  // States
  // ---------------------------------------------------------------------

  /** Numbers, slices and ring sizes are right, as after any calls so far. */
  ghost predicate Tidy(c: Config, s: Lb) {
    SlicesOk(c, s) && VipNumbersOk(c, s) && forall k :: k in s.vips ==> |s.vips[k].ring| == c.ringSize
  }

  lemma BatchTo(c: Config, s: Lb, k: VipKey, action: ModifyAction, rs: seq<NewReal>, v': VipState) returns (s': Lb)
    requires c.ringSize >= 2 && k in s.vips && Tidy(c, s) && |v'.ring| == c.ringSize
    requires Batch(s.vips[k], WorkOf(c, s, k, action, rs).ureals, v', c.ringSize, c.murmur)
    ensures Step(c, s, ModifyReals(k, action, rs), s') && Tidy(c, s')
    ensures s'.pool == WorkOf(c, s, k, action, rs).pool && s'.vips == s.vips[k := v']
    ensures s'.kernel.vipMap == s.kernel.vipMap
  {
    hide Batch, WorkOf, PushDelta, Diff, SlicesOk, VipNumbersOk;
    s' := AfterBatch(c, s, k, WorkOf(c, s, k, action, rs), v');
    assert s'.vips[k] == v' && s'.vips == s.vips[k := v'];
    assert ModifyRealsStep(c, s, k, action, rs, s');
    hide AfterBatch;
    ModifyRealsSlices(c, s, k, action, rs, s');
    BatchKeepsVipNumbers(c, s, k, action, rs, s');
    hide ModifyRealsStep;
  }

  lemma FirstVip(c: Config, k: VipKey) returns (s: Lb)
    requires ConfigOk(c) && c.maxReals == 1 && c.maxVips >= 2 && c.parse(k.address).Some?
    ensures Step(c, Init(c), Op.AddVip(k, 0), s) && Tidy(c, s)
    ensures s.pool == Pool(1, [0], map[], map[], map[], {}) && s.vipNums != [] && s.vipNums[0] == 1
    ensures s.vips == map[k := VipState(0, 0, map[], EmptyRing(c.ringSize))]
    ensures s.kernel.vipMap == map[Def(c, k) := VipMeta(0, 0)]
  {
    s := DoAddVip(c, Init(c), k, 0);
    InitNumbers(c);
    AddVipNumbers(c, Init(c), k, 0);
    AddVipSlices(c, Init(c), k, 0);
    assert seq(1, i => i) == [0];
  }

  lemma SecondVip(c: Config, s: Lb, k: VipKey, j: VipKey) returns (s': Lb)
    requires ConfigOk(c) && k != j && c.parse(j.address).Some? && Tidy(c, s) && s.vipNums != [] && s.vipNums[0] == 1
    requires s.vips.Keys == {k}
    ensures Step(c, s, Op.AddVip(j, 0), s') && Tidy(c, s') && s'.pool == s.pool
    ensures s'.vips == s.vips[j := VipState(1, 0, map[], EmptyRing(c.ringSize))]
    ensures s'.kernel.vipMap == s.kernel.vipMap[Def(c, j) := VipMeta(0, 1)]
  {
    s' := DoAddVip(c, s, j, 0);
    AddVipNumbers(c, s, j, 0);
    AddVipSlices(c, s, j, 0);
    hide SlicesOk, VipNumbersOk, Def;
  }

  /** The VIP without reals gets the only real, which was free. */
  lemma FirstHolder(c: Config, s: Lb, k: VipKey, a: string, x: Addr) returns (s': Lb)
    requires c.ringSize >= 2 && c.parse(a) == Some(x) && k in s.vips && s.vips[k].reals == map[] && Tidy(c, s)
    requires s.pool == Pool(1, [0], map[], map[], s.pool.mirror, {}) && s.pool.mirror.Keys <= {0}
    ensures Step(c, s, ModifyReals(k, Add, [NewReal(a, 1)]), s') && Tidy(c, s')
    ensures s'.pool == Held1(x, 1) && s'.vips == s.vips[k := Holder(c, s.vips[k], c.hash(x))]
    ensures s'.kernel.vipMap == s.kernel.vipMap
  {
    AddFresh(c, s.pool, {}, a, x);
    JoinBatch(c, s.vips[k], c.hash(x));
    assert s.vips[k].reals.Keys == {};
    hide DoReals, Batch, Tidy, Step;
    s' := BatchTo(c, s, k, Add, [NewReal(a, 1)], Holder(c, s.vips[k], c.hash(x)));
  }

  /** A second VIP gets the same real. */
  lemma SecondHolder(c: Config, s: Lb, j: VipKey, a: string, x: Addr) returns (s': Lb)
    requires c.ringSize >= 2 && c.parse(a) == Some(x) && j in s.vips && s.vips[j].reals == map[] && Tidy(c, s)
    requires s.pool == Held1(x, 1)
    ensures Step(c, s, ModifyReals(j, Add, [NewReal(a, 1)]), s') && Tidy(c, s')
    ensures s'.pool == Held1(x, 2) && s'.vips == s.vips[j := Holder(c, s.vips[j], c.hash(x))]
    ensures s'.kernel.vipMap == s.kernel.vipMap
  {
    AddHeld(c, a, x);
    JoinBatch(c, s.vips[j], c.hash(x));
    assert s.vips[j].reals.Keys == {};
    hide DoReals, Batch, Tidy, Step;
    s' := BatchTo(c, s, j, Add, [NewReal(a, 1)], Holder(c, s.vips[j], c.hash(x)));
  }

  /** One call deletes it twice from one of them. */
  lemma DeletedTwice(c: Config, s: Lb, k: VipKey, a: string, x: Addr) returns (s': Lb)
    requires c.ringSize >= 2 && c.parse(a) == Some(x) && k in s.vips && s.vips[k].reals.Keys == {0} && Tidy(c, s)
    requires s.pool == Held1(x, 2)
    ensures Step(c, s, ModifyReals(k, Del, [NewReal(a, 1), NewReal(a, 1)]), s') && Tidy(c, s')
    ensures s'.pool == Free1(x) && s'.vips == s.vips[k := s.vips[k].(reals := map[])]
    ensures s'.kernel.vipMap == s.kernel.vipMap
  {
    DelTwice(c, a, x);
    LeaveBatch(c, s.vips[k], 0, [Update(Del, 0), Update(Del, 0)]);
    assert |s.vips[k].ring| == c.ringSize;
    hide DoReals, Batch, Tidy, Step;
    s' := BatchTo(c, s, k, Del, [NewReal(a, 1), NewReal(a, 1)], s.vips[k].(reals := map[]));
  }

  /** Every hash of a VIP whose ring is all zeros leads to number 0. */
  lemma LeadsToZero(c: Config, s: Lb, j: VipKey, h: nat)
    requires c.ringSize >= 2 && Tidy(c, s) && j in s.vips && s.vips[j].ring == Zeros(c.ringSize)
    requires Def(c, j) in s.kernel.vipMap && s.kernel.vipMap[Def(c, j)].num == s.vips[j].num
    ensures RingReal(c, s, s.kernel.vipMap[Def(c, j)], h) == 0
  {
    CellValue(c, s.kernel.rings, s.vips[j], h % c.ringSize);
  }

  // ---------------------------------------------------------------------
  // A repeated deletion
  // ---------------------------------------------------------------------

  function SharedReal(a: string, k: VipKey, j: VipKey): seq<Op> {
    [Op.AddVip(k, 0), Op.AddVip(j, 0), ModifyReals(k, Add, [NewReal(a, 1)]), ModifyReals(j, Add, [NewReal(a, 1)])]
  }

  lemma Extend(c: Config, ops: seq<Op>, ss: seq<Lb>, op: Op, s': Lb)
    requires c.ringSize >= 2 && Calls(c, ops, ss) && Step(c, ss[|ops|], op, s')
    ensures Calls(c, ops + [op], ss + [s'])
  {
    hide Step;
  }

  lemma ExtendTwo(c: Config, ops: seq<Op>, ss: seq<Lb>, op: Op, s: Lb, op': Op, s': Lb)
    requires c.ringSize >= 2 && Calls(c, ops, ss) && Step(c, ss[|ops|], op, s) && Step(c, s, op', s')
    ensures Calls(c, ops + [op] + [op'], ss + [s] + [s']) && |ss| == |ops| + 1
  {
    hide Step;
    Extend(c, ops, ss, op, s);
    Extend(c, ops + [op], ss + [s], op', s');
  }

  /** Two VIPs that hold the same real. */
  lemma SharedRun(c: Config, a: string, x: Addr, k: VipKey, j: VipKey) returns (ss: seq<Lb>)
    requires ConfigOk(c) && c.maxReals == 1 && c.maxVips >= 2 && c.parse(a) == Some(x) && k != j
    requires c.parse(k.address).Some? && c.parse(j.address).Some? && Def(c, k) != Def(c, j)
    ensures Calls(c, SharedReal(a, k, j), ss) && Shared(c, ss[4], x, k, j)
  {
    hide Def, Tidy, Batch, Step, Calls;
    var s1 := FirstVip(c, k);
    var s2 := SecondVip(c, s1, k, j);
    var s3 := FirstHolder(c, s2, k, a, x);
    var s4 := SecondHolder(c, s3, j, a, x);
    var ops, states := [Op.AddVip(k, 0)], [Init(c), s1];
    var add, more := ModifyReals(k, Add, [NewReal(a, 1)]), ModifyReals(j, Add, [NewReal(a, 1)]);
    OneCall(c, Op.AddVip(k, 0), s1);
    ExtendTwo(c, ops, states, Op.AddVip(j, 0), s2, add, s3);
    Extend(c, ops + [Op.AddVip(j, 0)] + [add], states + [s2] + [s3], more, s4);
    ss := states + [s2] + [s3] + [s4];
    assert ops + [Op.AddVip(j, 0)] + [add] + [more] == SharedReal(a, k, j);
    assert ss[4] == s4;
  }

  ghost predicate Shared(c: Config, s: Lb, x: Addr, k: VipKey, j: VipKey) {
    && Tidy(c, s) && s.pool == Held1(x, 2) && k in s.vips && j in s.vips
    && s.vips[k].reals.Keys == {0} && s.vips[j].reals.Keys == {0} && s.vips[j].ring == Zeros(c.ringSize)
    && Def(c, j) in s.kernel.vipMap && s.kernel.vipMap[Def(c, j)].num == s.vips[j].num
  }

  /** The two calls: the number goes back while the second VIP holds it, and is given to another real. */
  lemma Reassigned(c: Config, s: Lb, a: string, x: Addr, b: string, y: Addr, k: VipKey, j: VipKey, h: nat)
    returns (s': Lb, s'': Lb)
    requires c.ringSize >= 2 && Shared(c, s, x, k, j) && k != j && c.parse(a) == Some(x) && c.parse(b) == Some(y)
    ensures Step(c, s, ModifyReals(k, Del, [NewReal(a, 1), NewReal(a, 1)]), s')
    ensures Step(c, s', ModifyReals(k, Add, [NewReal(b, 1)]), s'')
    ensures 0 in s'.pool.free && j in s'.vips && 0 in s'.vips[j].reals
    ensures Def(c, j) in s''.kernel.vipMap && RingReal(c, s'', s''.kernel.vipMap[Def(c, j)], h) == 0
    ensures 0 in s''.pool.mirror && s''.pool.mirror[0] == y
  {
    hide Def, Tidy, Batch, Step, RingReal;
    s' := DeletedTwice(c, s, k, a, x);
    s'' := FirstHolder(c, s', k, b, y);
    LeadsToZero(c, s'', j, h);
  }

  /**
   Two VIPs hold the same real; one call deletes it twice from the first, the next adds
   another real to the first. The second VIP, which neither call names, now sends every
   packet to that other real.
   */
  lemma RepeatedDeleteMisroutes(c: Config, a: string, b: string, k: VipKey, j: VipKey, h: nat) returns (ss: seq<Lb>)
    requires Scene(c, a, b, k, j)
    ensures Calls(c, SharedReal(a, k, j) + [ModifyReals(k, Del, [NewReal(a, 1), NewReal(a, 1)])]
                     + [ModifyReals(k, Add, [NewReal(b, 1)])], ss)
    ensures 0 in ss[5].pool.free && j in ss[5].vips && 0 in ss[5].vips[j].reals
    ensures Def(c, j) in ss[6].kernel.vipMap
    ensures RingReal(c, ss[6], ss[6].kernel.vipMap[Def(c, j)], h) == 0
    ensures 0 in ss[6].pool.mirror && Some(ss[6].pool.mirror[0]) == c.parse(b)
  {
    assert ConfigOk(c) && c.ringSize >= 2;
    hide Def, Tidy, Batch, Step, Calls, SharedReal, RingReal, ConfigOk;
    var x, y := c.parse(a).value, c.parse(b).value;
    ss := SharedRun(c, a, x, k, j);
    var ops := SharedReal(a, k, j);
    CallsLength(c, a, k, j, ss);
    var s5, s6 := Reassigned(c, ss[4], a, x, b, y, k, j, h);
    hide Shared;
    var del, add := ModifyReals(k, Del, [NewReal(a, 1), NewReal(a, 1)]), ModifyReals(k, Add, [NewReal(b, 1)]);
    ExtendTwo(c, ops, ss, del, s5, add, s6);
    ss := ss + [s5] + [s6];
  }

  lemma CallsLength(c: Config, a: string, k: VipKey, j: VipKey, ss: seq<Lb>)
    requires c.ringSize >= 2 && Calls(c, SharedReal(a, k, j), ss)
    ensures |SharedReal(a, k, j)| == 4 && |ss| == 5
  {
  }

  // ---------------------------------------------------------------------
  // A repeated addition
  // ---------------------------------------------------------------------

  lemma AddTwice(c: Config, a: string, x: Addr)
    requires c.parse(a) == Some(x)
    ensures var p := Pool(1, [0], map[], map[], map[], {});
      var w := DoReals(c, Add, Work(p, {}, []), [NewReal(a, 1), NewReal(a, 1)]);
      w.pool == Held1(x, 2) && w.ureals == [Update(Add, c.hash(x)), Update(Add, c.hash(x))]
  {
    var w0, r := Work(Pool(1, [0], map[], map[], map[], {}), {}, []), NewReal(a, 1);
    TwoReals(c, Add, w0, r);
    AddFresh(c, w0.pool, {}, a, x);
    OneReal(c, Add, w0, r);
  }

  lemma JoinTwiceBatch(c: Config, v: VipState, h: nat)
    requires c.ringSize >= 2 && v.reals == map[]
    ensures Batch(v, [Update(Add, h), Update(Add, h)], Holder(c, v, h), c.ringSize, c.murmur)
  {
    var us := [Update(Add, h), Update(Add, h)];
    var reals := map[0 := VipRealMeta(1, h)];
    assert us[..1] == [Update(Add, h)];
    JoinBatch(c, v, h);
    assert Apply(v.reals, us[..1]) == reals;
    assert Apply(v.reals, us) == reals;
    assert AnyChange(v.reals, us[..1]);
    assert IsActive(reals, 0);
    OneRealRing(c, h);
  }

  lemma DelOnce(c: Config, a: string, x: Addr)
    requires c.parse(a) == Some(x)
    ensures var w := DoReals(c, Del, Work(Held1(x, 2), {0}, []), [NewReal(a, 1)]);
      w.pool == Held1(x, 1) && w.ureals == [Update(Del, 0)]
  {
    OneReal(c, Del, Work(Held1(x, 2), {0}, []), NewReal(a, 1));
  }

  lemma AddRefused(c: Config, x: Addr, b: string, y: Addr)
    requires c.parse(b) == Some(y) && x != y
    ensures var w := DoReals(c, Add, Work(Held1(x, 1), {}, []), [NewReal(b, 1)]);
      w.pool == Held1(x, 1) && w.ureals == []
  {
    OneReal(c, Add, Work(Held1(x, 1), {}, []), NewReal(b, 1));
  }

  /** Twice in one call: two references for one user. */
  lemma AddedTwice(c: Config, s: Lb, k: VipKey, a: string, x: Addr) returns (s': Lb)
    requires c.ringSize >= 2 && c.parse(a) == Some(x) && k in s.vips && s.vips[k].reals == map[] && Tidy(c, s)
    requires s.pool == Pool(1, [0], map[], map[], map[], {})
    ensures Step(c, s, ModifyReals(k, Add, [NewReal(a, 1), NewReal(a, 1)]), s') && Tidy(c, s')
    ensures s'.pool == Held1(x, 2) && s'.vips == s.vips[k := Holder(c, s.vips[k], c.hash(x))]
  {
    AddTwice(c, a, x);
    JoinTwiceBatch(c, s.vips[k], c.hash(x));
    assert s.vips[k].reals.Keys == {};
    hide DoReals, Batch, Tidy, Step;
    s' := BatchTo(c, s, k, Add, [NewReal(a, 1), NewReal(a, 1)], Holder(c, s.vips[k], c.hash(x)));
  }

  lemma DeletedOnce(c: Config, s: Lb, k: VipKey, a: string, x: Addr) returns (s': Lb)
    requires c.ringSize >= 2 && c.parse(a) == Some(x) && k in s.vips && s.vips[k].reals.Keys == {0} && Tidy(c, s)
    requires s.pool == Held1(x, 2)
    ensures Step(c, s, ModifyReals(k, Del, [NewReal(a, 1)]), s') && Tidy(c, s')
    ensures s'.pool == Held1(x, 1) && s'.vips == s.vips[k := s.vips[k].(reals := map[])]
  {
    DelOnce(c, a, x);
    LeaveBatch(c, s.vips[k], 0, [Update(Del, 0)]);
    assert |s.vips[k].ring| == c.ringSize;
    hide DoReals, Batch, Tidy, Step;
    s' := BatchTo(c, s, k, Del, [NewReal(a, 1)], s.vips[k].(reals := map[]));
  }

  lemma Refused(c: Config, s: Lb, k: VipKey, x: Addr, b: string, y: Addr) returns (s': Lb)
    requires c.ringSize >= 2 && c.parse(b) == Some(y) && x != y && k in s.vips && s.vips[k].reals == map[] && Tidy(c, s)
    requires s.pool == Held1(x, 1)
    ensures Step(c, s, ModifyReals(k, Add, [NewReal(b, 1)]), s')
    ensures s'.pool == Held1(x, 1) && s'.vips == s.vips
  {
    AddRefused(c, x, b, y);
    assert s.vips[k].reals.Keys == {};
    assert Batch(s.vips[k], [], s.vips[k], c.ringSize, c.murmur);
    assert |s.vips[k].ring| == c.ringSize;
    hide DoReals, Batch, Tidy, Step;
    s' := BatchTo(c, s, k, Add, [NewReal(b, 1)], s.vips[k]);
    assert s.vips[k := s.vips[k]] == s.vips;
  }

  /**
   A brand-new real given twice in one addition, then deleted: no VIP uses the only number,
   it still counts a reference, and the next real is refused.
   */
  lemma RepeatedAddLosesNumber(c: Config, a: string, b: string, k: VipKey) returns (ss: seq<Lb>)
    requires ConfigOk(c) && c.maxReals == 1 && c.maxVips >= 2 && c.parse(k.address).Some?
    requires c.parse(a).Some? && c.parse(b).Some? && c.parse(a) != c.parse(b)
    ensures Calls(c, [Op.AddVip(k, 0)] + [ModifyReals(k, Add, [NewReal(a, 1), NewReal(a, 1)])]
                     + [ModifyReals(k, Del, [NewReal(a, 1)])] + [ModifyReals(k, Add, [NewReal(b, 1)])], ss)
    ensures ss[4].vips.Keys == {k} && ss[4].vips[k].reals == map[]
    ensures ss[4].pool.free == [] && RefCount(ss[4].pool, 0) == 1
  {
    assert Held1(c.parse(a).value, 1).free == [] && RefCount(Held1(c.parse(a).value, 1), 0) == 1;
    var x, y := c.parse(a).value, c.parse(b).value;
    var r := NewReal(a, 1);
    hide Def, Tidy, Batch, Step, Calls;
    var s1 := FirstVip(c, k);
    var s2 := AddedTwice(c, s1, k, a, x);
    var s3 := DeletedOnce(c, s2, k, a, x);
    var s4 := Refused(c, s3, k, x, b, y);
    var ops, states := [Op.AddVip(k, 0)], [Init(c), s1];
    var add, del, more := ModifyReals(k, Add, [r, r]), ModifyReals(k, Del, [r]), ModifyReals(k, Add, [NewReal(b, 1)]);
    OneCall(c, Op.AddVip(k, 0), s1);
    hide Held1;
    ExtendTwo(c, ops, states, add, s2, del, s3);
    Extend(c, ops + [add] + [del], states + [s2] + [s3], more, s4);
    ss := states + [s2] + [s3] + [s4];
    assert ss[4] == s4;
  }

  lemma OneCall(c: Config, op: Op, s: Lb)
    requires c.ringSize >= 2 && Step(c, Init(c), op, s)
    ensures Calls(c, [op], [Init(c), s])
  {
    hide Step;
  }

  // ---------------------------------------------------------------------
  // A second spelling
  // ---------------------------------------------------------------------

  /** Two keys that the kernel cannot tell apart: deleting the second leaves the first without an entry. */
  lemma SecondSpellingForgotten(c: Config, k: VipKey, j: VipKey) returns (ss: seq<Lb>)
    requires ConfigOk(c) && c.maxReals == 1 && c.maxVips >= 2 && k != j && Def(c, k) == Def(c, j)
    requires c.parse(k.address).Some? && c.parse(j.address).Some?
    ensures Calls(c, [Op.AddVip(k, 0)] + [Op.AddVip(j, 0)] + [Op.DelVip(j)], ss)
    ensures ss[3].vips.Keys == {k} && ss[3].kernel.vipMap == map[]
  {
    var s1 := FirstVip(c, k);
    var s2 := SecondVip(c, s1, k, j);
    var s3 := DoDelVip(c, s2, j, []);
    hide Tidy, Calls;
    assert Enumerates([], s2.vips[j].reals.Keys) && DelVipStep(c, s2, j, s3);
    assert Step(c, s2, Op.DelVip(j), s3);
    hide Def, Step;
    var ops, states := [Op.AddVip(k, 0)], [Init(c), s1];
    OneCall(c, Op.AddVip(k, 0), s1);
    ExtendTwo(c, ops, states, Op.AddVip(j, 0), s2, Op.DelVip(j), s3);
    ss := states + [s2] + [s3];
    assert ss[3] == s3;
  }

  // ---------------------------------------------------------------------
  // Reading a free number
  // ---------------------------------------------------------------------

  /** The second VIP is deleted while its real's number is free. */
  lemma DeletedLate(c: Config, s: Lb, x: Addr, j: VipKey) returns (s': Lb)
    requires c.ringSize >= 2 && s.pool == Free1(x) && j in s.vips && s.vips[j].reals.Keys == {0}
    ensures Step(c, s, Op.DelVip(j), s') && s'.pool == Free1(x).(blank := {0})
  {
    hide Def;
    var nums: seq<nat> := [0];
    s' := DoDelVip(c, s, j, nums);
    assert nums[..0] == [] && ReleaseAll(s.pool, nums) == ReleaseNumber(s.pool, 0);
    assert Enumerates(nums, s.vips[j].reals.Keys);
    assert DelVipStep(c, s, j, s');
  }

  lemma BlankPool(x: Addr)
    ensures var p := Free1(x).(blank := {0});
      p.reals == map[] && NumToReals(p) == map[0 := None] && 0 in p.free && !MapsInverse(p)
  {
    var p := Free1(x).(blank := {0});
    assert NumToReals(p) == map[0 := None];
  }

  /**
   Two VIPs hold the same real; one call deletes it twice from the first, the next deletes the
   second VIP: its number, free by then, gets an empty address.
   */
  lemma DeletedVipLeavesBlank(c: Config, a: string, b: string, k: VipKey, j: VipKey) returns (ss: seq<Lb>)
    requires Scene(c, a, b, k, j)
    ensures Calls(c, SharedReal(a, k, j) + [ModifyReals(k, Del, [NewReal(a, 1), NewReal(a, 1)])] + [Op.DelVip(j)], ss)
    ensures ss[6].pool.reals == map[] && NumToReals(ss[6].pool) == map[0 := None] && 0 in ss[6].pool.free
    ensures !MapsInverse(ss[6].pool)
  {
    assert ConfigOk(c) && c.ringSize >= 2;
    hide Def, Tidy, Batch, Step, Calls, SharedReal, ConfigOk;
    var x := c.parse(a).value;
    ss := SharedRun(c, a, x, k, j);
    var ops := SharedReal(a, k, j);
    CallsLength(c, a, k, j, ss);
    var s5 := DeletedTwice(c, ss[4], k, a, x);
    var s6 := DeletedLate(c, s5, x, j);
    hide Shared, Free1, MapsInverse;
    BlankPool(x);
    var del := ModifyReals(k, Del, [NewReal(a, 1), NewReal(a, 1)]);
    ExtendTwo(c, ops, ss, del, s5, Op.DelVip(j), s6);
    ss := ss + [s5] + [s6];
    assert ss[6] == s6;
  }

  // ---------------------------------------------------------------------
  // Source rules
  // ---------------------------------------------------------------------

  lemma OneRule(c: Config, s: Lb, r: Net, x: Addr)
    requires |s.rules| < c.maxRules && NumberFor(s.pool, x) != s.pool.max
    ensures AddRules(c, s, [r], x) == (AddRule(s, r, x), true)
  {
    hide Acquire, NumberFor, AddRule;
    assert [r][..0] == [];
  }

  lemma OneRuleGone(s: Lb, r: Net)
    ensures DelRules(s, [r]) == DelRule(s, r)
  {
    assert [r][..0] == [];
  }

  /** The first rule takes the only number. */
  lemma FirstRule(c: Config, r: Net, x: Addr) returns (s: Lb)
    requires c.ringSize >= 2 && c.maxReals == 1 && c.maxRules >= 1
    ensures Step(c, Init(c), AddSrcRules([r], x), s) && s.vips == map[]
    ensures s.pool == Held1(x, 1) && s.rules == map[r := 0] && s.kernel.rules == map[KeyOf(r) := 0]
  {
    hide KeyOf;
    assert Init(c).pool.free == [0];
    OneRule(c, Init(c), r, x);
    s := AddRule(Init(c), r, x);
    assert s.pool == Held1(x, 1);
  }

  /** Another rule for the same real, or the same rule again. */
  lemma NextRule(c: Config, s: Lb, r: Net, x: Addr) returns (s': Lb)
    requires c.ringSize >= 2 && |s.rules| < c.maxRules && s.pool == Held1(x, 1)
    ensures Step(c, s, AddSrcRules([r], x), s') && s'.vips == s.vips
    ensures s'.pool == Held1(x, 2) && s'.rules == s.rules[r := 0] && s'.kernel.rules == s.kernel.rules[KeyOf(r) := 0]
  {
    hide KeyOf;
    OneRule(c, s, r, x);
    s' := AddRule(s, r, x);
  }

  lemma RuleGone(c: Config, s: Lb, r: Net, x: Addr) returns (s': Lb)
    requires c.ringSize >= 2 && s.pool == Held1(x, 2) && r in s.rules && s.rules[r] == 0
    ensures Step(c, s, DelSrcRules([r]), s') && s'.vips == s.vips
    ensures s'.pool == Held1(x, 1) && s'.rules == s.rules - {r} && s'.kernel.rules == s.kernel.rules - {KeyOf(r)}
  {
    hide KeyOf;
    OneRuleGone(s, r);
    s' := DelRule(s, r);
    assert s'.pool == Held1(x, 1);
  }

  /** A prefix set twice and deleted once: no rule is left, the number still counts a reference. */
  lemma PrefixSetAgainLosesNumber(c: Config, r: Net, x: Addr) returns (ss: seq<Lb>)
    requires c.ringSize >= 2 && c.maxReals == 1 && c.maxRules >= 2
    ensures Calls(c, [AddSrcRules([r], x)] + [AddSrcRules([r], x)] + [DelSrcRules([r])], ss)
    ensures ss[3].rules == map[] && ss[3].vips == map[] && ss[3].pool.free == [] && RefCount(ss[3].pool, 0) == 1
  {
    assert Held1(x, 1).free == [] && RefCount(Held1(x, 1), 0) == 1;
    hide Step, Calls, KeyOf, RefCount;
    var s1 := FirstRule(c, r, x);
    var s2 := NextRule(c, s1, r, x);
    var s3 := RuleGone(c, s2, r, x);
    assert s3.rules == map[];
    OneCall(c, AddSrcRules([r], x), s1);
    hide Held1;
    ExtendTwo(c, [AddSrcRules([r], x)], [Init(c), s1], AddSrcRules([r], x), s2, DelSrcRules([r]), s3);
    ss := [Init(c), s1] + [s2] + [s3];
    assert ss[3] == s3;
  }

  /** Two prefixes with the same leading bits: deleting the second leaves the first without an entry. */
  lemma UnmaskedPrefixForgotten(c: Config, r: Net, q: Net, x: Addr) returns (ss: seq<Lb>)
    requires c.ringSize >= 2 && c.maxReals == 1 && c.maxRules >= 2 && r != q && KeyOf(r) == KeyOf(q)
    ensures Calls(c, [AddSrcRules([r], x)] + [AddSrcRules([q], x)] + [DelSrcRules([q])], ss)
    ensures ss[3].rules == map[r := 0] && ss[3].kernel.rules == map[]
  {
    hide Step, Calls, KeyOf, Held1;
    var s1 := FirstRule(c, r, x);
    var s2 := NextRule(c, s1, q, x);
    var s3 := RuleGone(c, s2, q, x);
    assert s3.rules == map[r := 0] && s3.kernel.rules == map[];
    OneCall(c, AddSrcRules([r], x), s1);
    ExtendTwo(c, [AddSrcRules([r], x)], [Init(c), s1], AddSrcRules([q], x), s2, DelSrcRules([q]), s3);
    ss := [Init(c), s1] + [s2] + [s3];
    assert ss[3] == s3;
  }

  /** A rule whose real one call deletes twice from a VIP: clearing the rules is not defined any more. */
  lemma ClearingUndefined(c: Config, a: string, k: VipKey, r: Net) returns (ss: seq<Lb>)
    requires ConfigOk(c) && c.maxReals == 1 && c.maxVips >= 2 && c.maxRules >= 1
    requires c.parse(a).Some? && c.parse(k.address).Some?
    ensures Calls(c, [Op.AddVip(k, 0)] + [ModifyReals(k, Add, [NewReal(a, 1)])]
                     + [AddSrcRules([r], c.parse(a).value)]
                     + [ModifyReals(k, Del, [NewReal(a, 1), NewReal(a, 1)])], ss)
    ensures !ClearDefined(ss[4]) && forall s' :: !Step(c, ss[4], ClearSrcRules, s')
  {
    var x := c.parse(a).value;
    var s1 := FirstVip(c, k);
    assert s1.rules == map[];
    hide Def, Tidy, Batch, Step, Calls, KeyOf;
    var s2 := FirstHolder(c, s1, k, a, x);
    var add, del := ModifyReals(k, Add, [NewReal(a, 1)]), ModifyReals(k, Del, [NewReal(a, 1), NewReal(a, 1)]);
    BatchKeepsRules(c, s1, add, s2);
    var s3 := RuleBeside(c, s2, k, r, x);
    var s4 := DeletedTwice(c, s3, k, a, x);
    BatchKeepsRules(c, s3, del, s4);
    NotCleared(c, s4, r, x);
    OneCall(c, Op.AddVip(k, 0), s1);
    var ops, states := [Op.AddVip(k, 0)], [Init(c), s1];
    var rule := AddSrcRules([r], x);
    hide ClearDefined, Held1, Free1;
    ExtendTwo(c, ops, states, add, s2, rule, s3);
    Extend(c, ops + [add] + [rule], states + [s2] + [s3], del, s4);
    ss := states + [s2] + [s3] + [s4];
    assert ss[4] == s4;
  }

  lemma BatchKeepsRules(c: Config, s: Lb, op: Op, s': Lb)
    requires c.ringSize >= 2 && op.ModifyReals? && Step(c, s, op, s')
    ensures s'.rules == s.rules
  {
    hide DoReals, Batch, PushDelta, Diff;
  }

  /** A rule for the real that the VIP holds. */
  lemma RuleBeside(c: Config, s: Lb, k: VipKey, r: Net, x: Addr) returns (s': Lb)
    requires c.ringSize >= 2 && c.maxRules >= 1 && s.rules == map[] && s.pool == Held1(x, 1) && Tidy(c, s)
    ensures Step(c, s, AddSrcRules([r], x), s') && s'.vips == s.vips && Tidy(c, s')
    ensures s'.pool == Held1(x, 2) && s'.rules == map[r := 0]
  {
    hide KeyOf;
    OneRule(c, s, r, x);
    s' := AddRule(s, r, x);
    hide SliceOk;
    SameNumbersOk(c, s, s');
  }

  lemma NotCleared(c: Config, s: Lb, r: Net, x: Addr)
    requires c.ringSize >= 2 && s.rules == map[r := 0] && s.pool == Free1(x)
    ensures !ClearDefined(s) && forall s' :: !Step(c, s, ClearSrcRules, s')
  {
    assert RuleUsers(s.rules, 0) == {r};
    assert RefCount(s.pool, 0) == 0 && 0 !in s.pool.blank;
    assert PoolOk(s.pool) && !ClearDefined(s);
    hide ClearDefined, PoolOk, Free1;
    forall s' ensures !ClearStep(s, s') {
      if ClearStep(s, s') { ClearedIsDefined(s, s'); }
    }
  }

  lemma ClearedIsDefined(s: Lb, s': Lb)
    requires PoolOk(s.pool) && ClearStep(s, s')
    ensures ClearDefined(s)
  {
    hide PoolOk, DelRules, ClearDefined, FindsAll;
    var srcs :|
      Distinct(srcs) && Elements(srcs) == s.rules.Keys && FindsAll(s, srcs) && s' == DelRules(s, srcs);
    ClearDefinedIff(s, srcs);
  }
}
