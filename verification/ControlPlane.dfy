/**
 The control plane of the load balancer (KatranLb.cpp) as a state machine: the user-space
 tables together with the kernel tables that mirror them. Each public call is one step.
 Kernel updates are taken to succeed; the instance forwards and is not in testing mode.
 */
module ControlPlane {
  import opened Options
  import opened Residues
  import opened Maglev
  import opened Vips
  import opened Allocator
  import opened Prefixes

  /** Configuration plus the library functions the code calls: address parsing and the hashes. */
  datatype Config = Config(
    maxVips: nat, maxReals: nat, ringSize: nat, maxRules: nat,
    parse: string -> Option<Addr>, hash: Addr -> nat, murmur: Murmur)

  ghost predicate ConfigOk(c: Config) {
    && 2 <= c.ringSize < U32
    && c.maxReals <= I32
    && c.maxVips * c.ringSize <= U32
  }

  datatype NewReal = NewReal(address: string, weight: nat)

  datatype QuicReal = QuicReal(address: string, id: nat)

  const MAX_QUIC_ID: nat := 65535

  datatype VipMeta = VipMeta(flags: bv32, num: nat)

  /** The kernel's VIP key: an IPv4 address occupies the first word of the address union. */
  datatype VipDef = VipDef(words: seq<nat>, port: nat, proto: nat)

  function Def(c: Config, k: VipKey): VipDef {
    VipDef(match c.parse(k.address) case Some(a) => Words(a) case None => [], k.port, k.proto)
  }

  /** `rings` is the ch_rings array, `quic` the quic_mapping array; a missing entry is still zero. */
  datatype Kernel = Kernel(vipMap: map<VipDef, VipMeta>, rings: map<nat, int>, quic: map<nat, nat>,
                           rules: map<LpmKey, nat>)

  datatype Lb = Lb(pool: Pool, vipNums: seq<nat>, vips: map<VipKey, VipState>, quic: map<Addr, nat>,
                   rules: map<Net, nat>, kernel: Kernel)

  function Init(c: Config): Lb {
    Lb(NewPool(c.maxReals), seq(c.maxVips, i => i), map[], map[], map[], Kernel(map[], map[], map[], map[]))
  }

  // ---------------------------------------------------------------------
  // modifyRealsForVip, real by real
  // ---------------------------------------------------------------------

  /** What the loop over a batch carries: the pool, `cur_reals`, and the updates collected so far. */
  datatype Work = Work(pool: Pool, cur: set<nat>, ureals: seq<UpdateReal>)

  function AddOne(c: Config, w: Work, r: NewReal): Work {
    match c.parse(r.address)
    case None => w
    case Some(a) =>
      var n := NumberFor(w.pool, a);
      var u := UpdateReal(Add, Endpoint(n, r.weight, c.hash(a)));
      if a in w.pool.reals then
        if n in w.cur then w.(ureals := w.ureals + [u])
        else Work(Acquire(w.pool, a), w.cur + {n}, w.ureals + [u])
      else if n == w.pool.max then w.(pool := Acquire(w.pool, a))
      else Work(Acquire(w.pool, a), w.cur, w.ureals + [u])
  }

  function DelOne(c: Config, w: Work, r: NewReal): Work {
    match c.parse(r.address)
    case None => w
    case Some(a) =>
      if a !in w.pool.reals || w.pool.reals[a].num !in w.cur then w
      else w.(pool := Release(w.pool, a),
              ureals := w.ureals + [UpdateReal(Del, Endpoint(w.pool.reals[a].num, 0, 0))])
  }

  function DoOne(c: Config, action: ModifyAction, w: Work, r: NewReal): Work {
    if action == Add then AddOne(c, w, r) else DelOne(c, w, r)
  }

  function DoReals(c: Config, action: ModifyAction, w: Work, rs: seq<NewReal>): Work {
    if rs == [] then w else DoOne(c, action, DoReals(c, action, w, rs[..|rs| - 1]), rs[|rs| - 1])
  }

  /** Kernel ring cells are written at `vip_num * ring_size + pos`. */
  function PushDelta(rings: map<nat, int>, base: nat, delta: seq<RealPos>): map<nat, int> {
    if delta == [] then rings else
      PushDelta(rings, base, delta[..|delta| - 1])
        [base + delta[|delta| - 1].pos := delta[|delta| - 1].realNum]
  }

  // ---------------------------------------------------------------------
  // Source rules and QUIC mappings
  // ---------------------------------------------------------------------

  /** Adds rules in order until the table or the numbers run out; `ok` is false when they do. */
  function AddRules(c: Config, s: Lb, srcs: seq<Net>, dst: Addr): (Lb, bool) {
    if srcs == [] then (s, true) else
      var (s1, ok) := AddRules(c, s, srcs[..|srcs| - 1], dst);
      if !ok then (s1, false)
      else if |s1.rules| + 1 > c.maxRules then (s1, false)
      else
        var n := NumberFor(s1.pool, dst);
        if n == s1.pool.max then (s1.(pool := Acquire(s1.pool, dst)), false)
        else (AddRule(s1, srcs[|srcs| - 1], dst), true)
  }

  function AddRule(s: Lb, src: Net, dst: Addr): Lb {
    var n := NumberFor(s.pool, dst);
    s.(pool := Acquire(s.pool, dst), rules := s.rules[src := n],
       kernel := s.kernel.(rules := s.kernel.rules[KeyOf(src) := n]))
  }

  function DelRule(s: Lb, src: Net): Lb {
    if src !in s.rules then s else
      s.(pool := ReleaseNumber(s.pool, s.rules[src]),
         rules := s.rules - {src}, kernel := s.kernel.(rules := s.kernel.rules - {KeyOf(src)}))
  }

  function DelRules(s: Lb, srcs: seq<Net>): Lb {
    if srcs == [] then s else DelRule(DelRules(s, srcs[..|srcs| - 1]), srcs[|srcs| - 1])
  }

  function QuicOne(c: Config, action: ModifyAction, s: Lb, q: QuicReal): Lb {
    match c.parse(q.address)
    case None => s
    case Some(a) =>
      if q.id > MAX_QUIC_ID then s
      else if action == Del then
        if a !in s.quic then s else s.(pool := Release(s.pool, a), quic := s.quic - {a})
      else if a in s.quic then s
      else
        var n := NumberFor(s.pool, a);
        if n == s.pool.max then s.(pool := Acquire(s.pool, a))
        else s.(pool := Acquire(s.pool, a), quic := s.quic[a := q.id],
                kernel := s.kernel.(quic := s.kernel.quic[q.id := n]))
  }

  function QuicAll(c: Config, action: ModifyAction, s: Lb, qs: seq<QuicReal>): Lb {
    if qs == [] then s else QuicOne(c, action, QuicAll(c, action, s, qs[..|qs| - 1]), qs[|qs| - 1])
  }

  // ---------------------------------------------------------------------
  // delVip
  // ---------------------------------------------------------------------

  /** Releases the reals of a deleted VIP in the order in which they are listed. */
  function ReleaseAll(p: Pool, nums: seq<nat>): Pool {
    if nums == [] then p else
      ReleaseNumber(ReleaseAll(p, nums[..|nums| - 1]), nums[|nums| - 1])
  }

  ghost predicate Enumerates(nums: seq<nat>, keys: set<nat>) {
    Distinct(nums) && Elements(nums) == keys
  }

  // ---------------------------------------------------------------------
  // Steps
  // ---------------------------------------------------------------------

  datatype Op =
    | AddVip(key: VipKey, flags: bv32)
    | DelVip(key: VipKey)
    | ModifyVip(key: VipKey, flags: bv32, set_: bool)
    | ModifyReals(key: VipKey, action: ModifyAction, newReals: seq<NewReal>)
    | AddSrcRules(srcs: seq<Net>, dst: Addr)
    | DelSrcRules(srcs: seq<Net>)
    | ClearSrcRules
    | ModifyQuic(action: ModifyAction, quicReals: seq<QuicReal>)
    | GetReals(key: VipKey)
    | GetSrcRules

  function MetaFor(v: VipState): VipMeta {
    VipMeta(v.flags, v.num)
  }

  function DoAddVip(c: Config, s: Lb, k: VipKey, flags: bv32): Lb {
    if c.parse(k.address).None? || s.vipNums == [] || k in s.vips then s else
      var v := VipState(s.vipNums[0], flags, map[], EmptyRing(c.ringSize));
      s.(vipNums := s.vipNums[1..], vips := s.vips[k := v],
         kernel := s.kernel.(vipMap := s.kernel.vipMap[Def(c, k) := MetaFor(v)]))
  }

  function DoDelVip(c: Config, s: Lb, k: VipKey, nums: seq<nat>): Lb
    requires k in s.vips
  {
    s.(pool := ReleaseAll(s.pool, nums), vipNums := s.vipNums + [s.vips[k].num], vips := s.vips - {k},
       kernel := s.kernel.(vipMap := s.kernel.vipMap - {Def(c, k)}))
  }

  function DoModifyVip(c: Config, s: Lb, k: VipKey, flags: bv32, on: bool): Lb {
    if k !in s.vips then s else
      var v := s.vips[k].(flags := NewFlags(s.vips[k].flags, flags, on));
      s.(vips := s.vips[k := v], kernel := s.kernel.(vipMap := s.kernel.vipMap[Def(c, k) := MetaFor(v)]))
  }

  function WorkOf(c: Config, s: Lb, k: VipKey, action: ModifyAction, rs: seq<NewReal>): Work
    requires k in s.vips
  {
    DoReals(c, action, Work(s.pool, s.vips[k].reals.Keys, []), rs)
  }

  /** The state after a batch whose VIP became `v`. */
  function AfterBatch(c: Config, s: Lb, k: VipKey, w: Work, v: VipState): Lb
    requires k in s.vips && |s.vips[k].ring| == |v.ring|
  {
    s.(pool := w.pool, vips := s.vips[k := v],
       kernel := s.kernel.(rings := PushDelta(s.kernel.rings, v.num * c.ringSize,
                                              Diff(s.vips[k].ring, v.ring, |v.ring|))))
  }

  ghost predicate ModifyRealsStep(c: Config, s: Lb, k: VipKey, action: ModifyAction, rs: seq<NewReal>, s': Lb)
    requires c.ringSize >= 2
  {
    if k !in s.vips then s' == s else
      && k in s'.vips
      && |s.vips[k].ring| == |s'.vips[k].ring|
      && Batch(s.vips[k], WorkOf(c, s, k, action, rs).ureals, s'.vips[k], c.ringSize, c.murmur)
      && s' == AfterBatch(c, s, k, WorkOf(c, s, k, action, rs), s'.vips[k])
  }

  ghost predicate DelVipStep(c: Config, s: Lb, k: VipKey, s': Lb) {
    if k !in s.vips then s' == s else
      exists nums :: Enumerates(nums, s.vips[k].reals.Keys) && s' == DoDelVip(c, s, k, nums)
  }

  /** Every number that clearing the rules in this order looks up has an entry in numToReals_. */
  ghost predicate FindsAll(s: Lb, srcs: seq<Net>) {
    srcs == [] ||
    var s1, src := DelRules(s, srcs[..|srcs| - 1]), srcs[|srcs| - 1];
    FindsAll(s, srcs[..|srcs| - 1]) && (src in s1.rules ==> s1.rules[src] in NumToReals(s1.pool))
  }

  /** Clearing has a defined result only if no lookup fails: the code does not test for it. */
  ghost predicate ClearStep(s: Lb, s': Lb) {
    exists srcs ::
      Distinct(srcs) && Elements(srcs) == s.rules.Keys && FindsAll(s, srcs) && s' == DelRules(s, srcs)
  }

  /** The getters read numToReals_ with subscripts too. */
  function ReadReals(s: Lb, k: VipKey): Lb {
    if k !in s.vips then s else s.(pool := Subscript(s.pool, s.vips[k].reals.Keys))
  }

  function ReadRules(s: Lb): Lb {
    s.(pool := Subscript(s.pool, s.rules.Values))
  }

  /** One call that returns. The order in which hash maps are iterated and ties are sorted is left open. */
  ghost predicate Step(c: Config, s: Lb, op: Op, s': Lb)
    requires c.ringSize >= 2
  {
    match op
    case AddVip(k, flags) => s' == DoAddVip(c, s, k, flags)
    case DelVip(k) => DelVipStep(c, s, k, s')
    case ModifyVip(k, flags, on) => s' == DoModifyVip(c, s, k, flags, on)
    case ModifyReals(k, action, rs) => ModifyRealsStep(c, s, k, action, rs, s')
    case AddSrcRules(srcs, dst) => s' == AddRules(c, s, srcs, dst).0
    case DelSrcRules(srcs) => s' == DelRules(s, srcs)
    case ClearSrcRules => ClearStep(s, s')
    case ModifyQuic(action, qs) => s' == QuicAll(c, action, s, qs)
    case GetReals(k) => s' == ReadReals(s, k)
    case GetSrcRules => s' == ReadRules(s)
  }

  // ---------------------------------------------------------------------
  // What callers must respect
  // ---------------------------------------------------------------------

  /** No address occurs twice in the batch. */
  ghost predicate DistinctAddresses(c: Config, rs: seq<NewReal>) {
    forall i, j :: 0 <= i < j < |rs| && c.parse(rs[i].address).Some? ==>
      c.parse(rs[i].address) != c.parse(rs[j].address)
  }

  /** No configured VIP is the same VIP for the kernel. */
  ghost predicate FreshDef(c: Config, s: Lb, k: VipKey) {
    forall j :: j in s.vips && j != k ==> Def(c, j) != Def(c, k)
  }

  /** A deletion batch names each address at most once. */
  ghost predicate DistinctDeletes(c: Config, op: Op) {
    op.ModifyReals? && op.action == Del ==> DistinctAddresses(c, op.newReals)
  }

  /** Such deletions, and one spelling per VIP. */
  ghost predicate OpOk(c: Config, s: Lb, op: Op) {
    DistinctDeletes(c, op) && (op.AddVip? ==> FreshDef(c, s, op.key))
  }
}
