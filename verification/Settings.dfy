/**
 What else the caller sees of its calls: the flags of VIPs, bit by bit, here and in the kernel,
 and the QUIC mappings, address by address.
 */
module Settings {
  import opened Options
  import opened Residues
  import opened Vips
  import opened Allocator
  import opened ControlPlane
  import opened TableSafety
  import opened Runs
  import opened Forwarding
  import Routes

  // ---------------------------------------------------------------------
  // Flags
  // ---------------------------------------------------------------------

  predicate SingleBit(m: bv32) {
    m != 0 && m & (m - 1) == 0
  }

  /** The bit is set. */
  predicate On(flags: bv32, m: bv32) {
    flags & m != 0
  }

  /** Setting sets the bits given and unsetting clears them; other bits stay. */
  lemma ChangedBit(before: bv32, flags: bv32, on: bool, m: bv32)
    requires SingleBit(m)
    ensures On(NewFlags(before, flags, on), m) <==> if On(flags, m) then on else On(before, m)
  {
    if on {
      BitOfUnion(before, flags, m);
    } else {
      BitOfDifference(before, flags, m);
    }
    hide On, SingleBit;
  }

  lemma BitOfUnion(a: bv32, b: bv32, m: bv32)
    ensures On(a | b, m) <==> On(a, m) || On(b, m)
  {
    MaskedUnion(a, b, m);
    EmptyUnion(a & m, b & m);
  }

  lemma MaskedUnion(a: bv32, b: bv32, m: bv32)
    ensures (a | b) & m == (a & m) | (b & m)
  {
  }

  lemma EmptyUnion(x: bv32, y: bv32)
    ensures x | y == 0 <==> x == 0 && y == 0
  {
  }

  lemma MaskedDifference(a: bv32, b: bv32, m: bv32)
    ensures b & m == 0 ==> (a & !b) & m == a & m
    ensures b & m == m ==> (a & !b) & m == 0
  {
  }

  lemma AllOrNothing(b: bv32, m: bv32)
    requires SingleBit(m)
    ensures b & m == 0 || b & m == m
  {
  }

  lemma BitOfDifference(a: bv32, b: bv32, m: bv32)
    requires SingleBit(m)
    ensures On(a & !b, m) <==> On(a, m) && !On(b, m)
  {
    AllOrNothing(b, m);
    MaskedDifference(a, b, m);
  }

  /** What the calls so far asked of a flag bit of a VIP: set when it was added, changed since. */
  ghost predicate BitAsked(ops: seq<Op>, ss: seq<Lb>, i: nat, k: VipKey, m: bv32)
    requires i <= |ops| < |ss|
  {
    i > 0 &&
    match ops[i - 1]
    case AddVip(j, flags) =>
      if j == k && k !in ss[i - 1].vips then On(flags, m) else BitAsked(ops, ss, i - 1, k, m)
    case ModifyVip(j, flags, on) => if j == k && On(flags, m) then on else BitAsked(ops, ss, i - 1, k, m)
    case _ => BitAsked(ops, ss, i - 1, k, m)
  }

  /** One call, for a VIP that is there afterwards. */
  lemma StepFlags(c: Config, s: Lb, op: Op, s': Lb, k: VipKey, m: bv32)
    requires c.ringSize >= 2 && PoolOk(s.pool) && Step(c, s, op, s') && k in s'.vips && SingleBit(m)
    ensures k !in s.vips ==> op.AddVip? && op.key == k && s'.vips[k].flags == op.flags
    ensures k in s.vips ==>
      (On(s'.vips[k].flags, m) <==>
        if op.ModifyVip? && op.key == k && On(op.flags, m) then op.set_ else On(s.vips[k].flags, m))
  {
    hide On, SingleBit, Step;
    if op.ModifyVip? {
      SetFlags(c, s, op, s', k, m);
    } else {
      OtherFlags(c, s, op, s', k);
    }
  }

  lemma SetFlags(c: Config, s: Lb, op: Op, s': Lb, k: VipKey, m: bv32)
    requires c.ringSize >= 2 && Step(c, s, op, s') && k in s'.vips && op.ModifyVip? && SingleBit(m)
    ensures k in s.vips
    ensures On(s'.vips[k].flags, m) <==> if op.key == k && On(op.flags, m) then op.set_ else On(s.vips[k].flags, m)
  {
    hide On, SingleBit, NewFlags, Def;
    if op.key == k && k in s.vips {
      ChangedBit(s.vips[k].flags, op.flags, op.set_, m);
    }
  }

  lemma OtherFlags(c: Config, s: Lb, op: Op, s': Lb, k: VipKey)
    requires c.ringSize >= 2 && PoolOk(s.pool) && Step(c, s, op, s') && k in s'.vips && !op.ModifyVip?
    ensures k !in s.vips ==> op.AddVip? && op.key == k && s'.vips[k].flags == op.flags
    ensures k in s.vips ==> s'.vips[k].flags == s.vips[k].flags
  {
    hide PoolOk, DoReals, PushDelta, Diff, AddRules, DelRules, QuicAll, ReleaseAll, Def;
    match op
    case ModifyReals(j, action, rs) =>
      if j in s.vips {
        BatchMetas(c, s, j, action, rs, s');
        assert k in s.vips ==> MetaFor(s'.vips[k]) == MetaFor(s.vips[k]);
        hide ModifyRealsStep;
      }
    case AddSrcRules(srcs, dst) => AddRulesNames(c, s, srcs, dst);
    case DelSrcRules(srcs) => DelRulesNames(s, srcs);
    case ClearSrcRules =>
      var srcs :| Distinct(srcs) && Elements(srcs) == s.rules.Keys && s' == DelRules(s, srcs);
      DelRulesNames(s, srcs);
    case ModifyQuic(action, qs) => QuicNames(c, action, s, qs);
    case _ =>
  }

  /** After any calls every configured VIP has the flags that were asked for, bit by bit. */
  lemma {:induction false} FlagsAsAsked(c: Config, ops: seq<Op>, ss: seq<Lb>, i: nat, k: VipKey, m: bv32)
    requires c.ringSize >= 2 && Calls(c, ops, ss) && i < |ss| && SingleBit(m) && k in ss[i].vips
    ensures On(ss[i].vips[k].flags, m) <==> BitAsked(ops, ss, i, k, m)
  {
    if i > 0 {
      CallsKeepNumbers(c, ops, ss, i - 1);
      PoolOfNumbers(c, ss[i - 1]);
      hide NumbersOk, PoolOk, Step, SingleBit, On;
      assert Step(c, ss[i - 1], ops[i - 1], ss[i - 1 + 1]);
      StepFlags(c, ss[i - 1], ops[i - 1], ss[i], k, m);
      if k in ss[i - 1].vips {
        FlagsAsAsked(c, ops, ss, i - 1, k, m);
      }
    }
  }

  /** As long as no second spelling is added, so has its entry in the kernel. */
  lemma KernelFlagsAsAsked(c: Config, ops: seq<Op>, ss: seq<Lb>, i: nat, k: VipKey, m: bv32)
    requires c.ringSize >= 2 && Run(c, ops, ss) && i < |ss| && SingleBit(m) && k in ss[i].vips
    ensures Def(c, k) in ss[i].kernel.vipMap
    ensures On(ss[i].kernel.vipMap[Def(c, k)].flags, m) <==> BitAsked(ops, ss, i, k, m)
  {
    RunKeepsInv(c, ops, ss, i);
    FlagsAsAsked(c, ops, ss, i, k, m);
    hide TablesOk, Run, BitAsked, SingleBit, Def, On;
  }

  // ---------------------------------------------------------------------
  // QUIC mappings
  // ---------------------------------------------------------------------

  /** The entry is for the address, with an id that is accepted. */
  predicate Maps(c: Config, q: QuicReal, a: Addr) {
    c.parse(q.address) == Some(a) && q.id <= 65535
  }

  /** The id that the first such entry gives to the address. */
  function FirstId(c: Config, qs: seq<QuicReal>, a: Addr): Option<nat> {
    if qs == [] then None
    else if FirstId(c, qs[..|qs| - 1], a).Some? then FirstId(c, qs[..|qs| - 1], a)
    else if Maps(c, qs[|qs| - 1], a) then Some(qs[|qs| - 1].id) else None
  }

  /** Mapped addresses keep their ids; new ones get the first id given, unless the numbers ran out. */
  lemma {:induction false} MappingsAdded(c: Config, s: Lb, qs: seq<QuicReal>, a: Addr)
    requires PoolOk(s.pool)
    ensures var s', id := QuicAll(c, Add, s, qs), FirstId(c, qs, a);
      && (a in s.quic ==> a in s'.quic && s'.quic[a] == s.quic[a])
      && (a !in s.quic ==> (a in s'.quic <==> id.Some? && a in s'.pool.reals))
      && (a !in s.quic && a in s'.quic ==> s'.quic[a] == id.value)
      && (id.Some? && a !in s.quic && a !in s'.pool.reals ==> s'.pool.free == [])
  {
    if qs != [] {
      var front, q := qs[..|qs| - 1], qs[|qs| - 1];
      MappingsAdded(c, s, front, a);
      QuicNames(c, Add, s, front);
      hide PoolOk, NamesGrow, QuicOne;
      MappingAdded(c, QuicAll(c, Add, s, front), q, a);
    }
  }

  lemma MappingAdded(c: Config, s: Lb, q: QuicReal, a: Addr)
    requires PoolOk(s.pool)
    ensures var s' := QuicOne(c, Add, s, q);
      && (a in s.quic ==> a in s'.quic && s'.quic[a] == s.quic[a])
      && (a in s.pool.reals ==> a in s'.pool.reals) && (s.pool.free == [] ==> s'.pool.free == [])
      && (a !in s.quic && !Maps(c, q, a) ==> a !in s'.quic && (a in s'.pool.reals <==> a in s.pool.reals))
      && (a !in s.quic && Maps(c, q, a) ==>
            (if a in s'.pool.reals then a in s'.quic && s'.quic[a] == q.id else a !in s'.quic)
            && (a in s'.pool.reals <==> a in s.pool.reals || s.pool.free != [])
            && (a !in s'.pool.reals ==> s'.pool.free == []))
  {
    if c.parse(q.address).Some? {
      var b := c.parse(q.address).value;
      AcquiredReals(s.pool, b);
      hide PoolOk, Acquire;
    }
  }

  lemma AcquiredReals(p: Pool, b: Addr)
    requires PoolOk(p)
    ensures NumberFor(p, b) == p.max <==> b !in p.reals && p.free == []
    ensures forall x :: x in Acquire(p, b).reals <==> x in p.reals || (x == b && p.free != [])
    ensures p.free == [] ==> Acquire(p, b).free == []
  {
    AcquireCounts(p, b);
    hide PoolOk, RefCount;
  }

  /** Exactly the addresses named are unmapped. */
  lemma {:induction false} MappingsDeleted(c: Config, s: Lb, qs: seq<QuicReal>, a: Addr)
    ensures var s' := QuicAll(c, Del, s, qs);
      && (a in s'.quic <==> a in s.quic && FirstId(c, qs, a).None?)
      && (a in s'.quic ==> s'.quic[a] == s.quic[a])
  {
    if qs != [] {
      MappingsDeleted(c, s, qs[..|qs| - 1], a);
    }
  }

  /** No other call changes mappings. */
  lemma MappingsStay(c: Config, s: Lb, op: Op, s': Lb)
    requires c.ringSize >= 2 && PoolOk(s.pool) && Step(c, s, op, s') && !op.ModifyQuic?
    ensures s'.quic == s.quic
  {
    hide Step;
    Routes.QuicUntouched(c, s, op, s');
  }
}
