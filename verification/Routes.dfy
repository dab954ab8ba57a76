/**
 Numbers and the addresses they stand for, over runs of both planes: a number in use keeps
 its address, so flows keep theirs, and a QUIC id leads to the address mapped to it.
 */
module Routes {
  import opened Options
  import opened Residues
  import opened Vips
  import opened Allocator
  import opened ControlPlane
  import opened RefSafety
  import opened RefLeaks
  import opened TableSafety
  import opened Runs
  import opened DataPlane
  import opened Decisions
  import opened Affinity
  import opened EndToEnd

  // ---------------------------------------------------------------------
  // A number in use keeps its address
  // ---------------------------------------------------------------------

  /** One pool only gained names, or only lost some. */
  ghost predicate OneWay(p: Pool, q: Pool) {
    NamesGrow(p, q) || NamesGrow(q, p)
  }

  /** No call renames a number: it adds names or drops names, never both. */
  lemma StepOneWay(c: Config, s: Lb, op: Op, s': Lb)
    requires c.ringSize >= 2 && PoolOk(s.pool) && Step(c, s, op, s')
    ensures OneWay(s.pool, s'.pool)
  {
    hide PoolOk, DoReals, PushDelta, Diff, Batch, AddRules, DelRules, QuicAll, ReleaseAll, Def, NewFlags;
    match op
    case AddVip(k, flags) =>
    case ModifyVip(k, flags, on) =>
    case DelVip(k) =>
      if k in s.vips {
        var nums :| Enumerates(nums, s.vips[k].reals.Keys) && s' == DoDelVip(c, s, k, nums);
        ReleaseAllNames(s.pool, nums);
      }
    case ModifyReals(k, action, rs) =>
      if k in s.vips {
        BatchNames(c, action, Work(s.pool, s.vips[k].reals.Keys, []), rs);
      }
    case AddSrcRules(srcs, dst) => AddRulesNames(c, s, srcs, dst);
    case DelSrcRules(srcs) => DelRulesNames(s, srcs);
    case ClearSrcRules =>
      var srcs :| Distinct(srcs) && Elements(srcs) == s.rules.Keys && s' == DelRules(s, srcs);
      DelRulesNames(s, srcs);
    case ModifyQuic(action, qs) => QuicNames(c, action, s, qs);
    case GetReals(k) =>
    case GetSrcRules =>
  }

  /** The number has a user in every state from `i` to `j`. */
  ghost predicate UsedThroughout(ss: seq<Lb>, i: nat, j: nat, n: nat)
    requires j < |ss|
  {
    forall m :: i <= m <= j ==> Users(BooksOf(ss[m]), n) >= 1
  }

  lemma UsedIsNamed(b: Books, n: nat)
    requires Covered(b) && Users(b, n) >= 1
    ensures n in b.pool.names && n in b.pool.mirror && b.pool.mirror[n] == b.pool.names[n] && n < b.pool.max
  {
    assert RefCount(b.pool, n) >= 1;
  }

  /** While a number has a user, the kernel's table holds the same address for it. */
  lemma {:induction false} NumberKeepsAddress(c: Config, ops: seq<Op>, ss: seq<Lb>, i: nat, j: nat, n: nat)
    requires c.ringSize >= 2 && Calls(c, ops, ss) && NoRepeats(c, ops) && i <= j < |ss| && UsedThroughout(ss, i, j, n)
    ensures n in ss[i].pool.mirror && n in ss[j].pool.mirror && ss[j].pool.mirror[n] == ss[i].pool.mirror[n]
    ensures n < c.maxReals
    decreases j
  {
    hide Step, Covered, Users, NumbersOk;
    CallsKeepCovered(c, ops, ss, j);
    UsedIsNamed(BooksOf(ss[j]), n);
    CallsKeepNumbers(c, ops, ss, j);
    MaxOfNumbers(c, ss[j]);
    if i < j {
      NumberKeepsAddress(c, ops, ss, i, j - 1, n);
      CallsKeepCovered(c, ops, ss, j - 1);
      UsedIsNamed(BooksOf(ss[j - 1]), n);
      CallsKeepNumbers(c, ops, ss, j - 1);
      MaxOfNumbers(c, ss[j - 1]);
      assert Step(c, ss[j - 1], ops[j - 1], ss[j - 1 + 1]);
      StepOneWay(c, ss[j - 1], ops[j - 1], ss[j]);
    }
  }

  lemma MaxOfNumbers(c: Config, s: Lb)
    requires NumbersOk(c, s)
    ensures s.pool.max == c.maxReals && PoolOk(s.pool)
  {
  }

  /** Whatever a packet is sent to is what the table of reals holds. */
  lemma SendsWhatTableHolds(e: Env, t: Tables, cpu: Cpu, p: Packet, now: Clock)
    requires e.ringSize > 0 && Process(e, t, cpu, p, now).verdict.Send?
    ensures var v := Process(e, t, cpu, p, now).verdict; RealAt(e, t, v.num) == Some(v.addr)
  {
    hide Has, Resolve, GetDst, Touch, Lookup, QuicRoute;
  }

  /**
   Flow affinity over both planes: two packets of a stored flow are sent to the same address,
   whatever calls come between them, as long as the real keeps a user.
   */
  lemma FlowKeepsAddress(c: Config, ops: seq<Op>, ss: seq<Lb>, x: nat, y: nat, e: Env, w: World, evs: seq<Event>,
                         f: FlowKey, meta: VipMeta, n: nat, stored: nat, i: nat, j: nat)
    requires c.ringSize >= 2 && Calls(c, ops, ss) && NoRepeats(c, ops) && x <= y < |ss| && UsedThroughout(ss, x, y, n)
    requires Built(e, c) && e.ringSize > 0 && Stored(e, w, f, meta, n, stored)
      && Undisturbed(e, w, evs, f, meta, stored)
    requires i < |evs| && j < |evs| && Touches(At(e, w, evs, i), evs[i], f) && Touches(At(e, w, evs, j), evs[j], f)
    requires At(e, w, evs, i).tables == TablesOf(ss[x]) && At(e, w, evs, j).tables == TablesOf(ss[y])
    ensures var s, t := At(e, w, evs, i), At(e, w, evs, j);
      var v, u := Process(e, s.tables, s.cpu, evs[i].packet, evs[i].now).verdict,
                  Process(e, t.tables, t.cpu, evs[j].packet, evs[j].now).verdict;
      v.Send? && u.Send? && u.addr == v.addr
  {
    hide Process, Stored, Undisturbed, Touches, Calls, NoRepeats, UsedThroughout;
    var s, t := At(e, w, evs, i), At(e, w, evs, j);
    TouchesArrive(s, evs[i], f);
    TouchesArrive(t, evs[j], f);
    FlowAffinity(e, w, evs, f, meta, n, stored, i);
    FlowAffinity(e, w, evs, f, meta, n, stored, j);
    SendsWhatTableHolds(e, s.tables, s.cpu, evs[i].packet, evs[i].now);
    SendsWhatTableHolds(e, t.tables, t.cpu, evs[j].packet, evs[j].now);
    NumberKeepsAddress(c, ops, ss, x, y, n);
  }

  // ---------------------------------------------------------------------
  // QUIC ids
  // ---------------------------------------------------------------------

  /** The id is mapped to the address here and leads to its number in the kernel. */
  ghost predicate Leads(s: Lb, id: nat, a: Addr) {
    && a in s.quic && s.quic[a] == id && a in s.pool.reals
    && id in s.kernel.quic && s.kernel.quic[id] == s.pool.reals[a].num
  }

  /** The entry of a mapping call leaves the id's mapping to the address alone. */
  ghost predicate SparesOne(c: Config, action: ModifyAction, q: QuicReal, id: nat, a: Addr) {
    if action == Del then c.parse(q.address) != Some(a)
    else q.id != id || c.parse(q.address).None? || c.parse(q.address) == Some(a)
  }

  /** The call neither deletes the mapping nor gives the id to another address. */
  ghost predicate Spares(c: Config, op: Op, id: nat, a: Addr) {
    op.ModifyQuic? ==> forall i :: 0 <= i < |op.quicReals| ==> SparesOne(c, op.action, op.quicReals[i], id, a)
  }

  lemma SameNumber(p: Pool, q: Pool, a: Addr)
    requires PoolOk(p) && PoolOk(q) && OneWay(p, q) && a in p.reals && a in q.reals
    ensures q.reals[a].num == p.reals[a].num
  {
    NumbersDiffer(p);
    NumbersDiffer(q);
    hide PoolOk;
    assert p.names[p.reals[a].num] == a && q.names[q.reals[a].num] == a;
    if NamesGrow(p, q) {
      assert q.names[p.reals[a].num] == a;
      OneNumber(q, p.reals[a].num, a);
    } else {
      assert p.names[q.reals[a].num] == a;
      OneNumber(p, q.reals[a].num, a);
    }
  }

  lemma OneNumber(p: Pool, n: nat, a: Addr)
    requires PoolOk(p) && n in p.names && p.names[n] == a
    ensures a in p.reals && p.reals[a].num == n
  {
  }

  lemma QuicAddLeads(c: Config, s: Lb, q: QuicReal, id: nat, a: Addr, b: Addr)
    requires PoolOk(s.pool) && c.parse(q.address) == Some(b) && SparesOne(c, Add, q, id, a)
    ensures var s' := QuicOne(c, Add, s, q);
      && (a in s.quic ==> a in s'.quic && s'.quic[a] == s.quic[a])
      && (Leads(s, id, a) || (a !in s.quic && a in s'.quic && s'.quic[a] == id) ==> Leads(s', id, a))
  {
    if NumberFor(s.pool, b) != s.pool.max {
      AcquireNames(s.pool, b);
    } else {
      AcquireCounts(s.pool, b);
    }
    hide Acquire, PoolOk, RefCount, NumberFor;
  }

  lemma QuicDelLeads(c: Config, s: Lb, q: QuicReal, id: nat, a: Addr, b: Addr)
    requires PoolOk(s.pool) && c.parse(q.address) == Some(b) && b != a
    ensures var s' := QuicOne(c, Del, s, q);
      && (a in s'.quic <==> a in s.quic) && (Leads(s, id, a) ==> Leads(s', id, a))
  {
    ReleaseCounts(s.pool, b);
    hide Release, PoolOk, RefCount;
  }

  /** One entry of a mapping call: what led stays, and a new mapping leads. */
  lemma QuicOneLeads(c: Config, action: ModifyAction, s: Lb, q: QuicReal, id: nat, a: Addr)
    requires PoolOk(s.pool) && SparesOne(c, action, q, id, a)
    ensures var s' := QuicOne(c, action, s, q);
      && (a in s.quic ==> a in s'.quic) && (a in s.quic && action == Add ==> s'.quic[a] == s.quic[a])
      && (Leads(s, id, a) || (a !in s.quic && a in s'.quic && s'.quic[a] == id) ==> Leads(s', id, a))
  {
    if c.parse(q.address).Some? {
      hide QuicOne, PoolOk, Leads;
      if action == Add {
        QuicAddLeads(c, s, q, id, a, c.parse(q.address).value);
      } else {
        QuicDelLeads(c, s, q, id, a, c.parse(q.address).value);
      }
    }
  }

  lemma {:induction false} QuicAllLeads(c: Config, action: ModifyAction, s: Lb, qs: seq<QuicReal>, id: nat, a: Addr)
    requires PoolOk(s.pool) && forall i :: 0 <= i < |qs| ==> SparesOne(c, action, qs[i], id, a)
    ensures var s' := QuicAll(c, action, s, qs);
      && (a in s.quic ==> a in s'.quic) && (a in s.quic && action == Add ==> s'.quic[a] == s.quic[a])
      && (Leads(s, id, a) || (action == Add && a !in s.quic && a in s'.quic && s'.quic[a] == id) ==> Leads(s', id, a))
  {
    if qs != [] {
      var front, q := qs[..|qs| - 1], qs[|qs| - 1];
      QuicAllLeads(c, action, s, front, id, a);
      QuicNames(c, action, s, front);
      var s1 := QuicAll(c, action, s, front);
      hide QuicOne, PoolOk, Leads, SparesOne;
      QuicOneLeads(c, action, s1, q, id, a);
    }
  }

  /** Every call that spares the mapping keeps it leading, whatever else it does. */
  lemma StepKeepsLeads(c: Config, s: Lb, op: Op, s': Lb, id: nat, a: Addr)
    requires c.ringSize >= 2 && Covered(BooksOf(s)) && Covered(BooksOf(s')) && Step(c, s, op, s')
    requires Leads(s, id, a) && Spares(c, op, id, a)
    ensures Leads(s', id, a)
  {
    assert PoolOk(s.pool) && PoolOk(s'.pool);
    if op.ModifyQuic? {
      hide PoolOk, Covered, Leads, QuicAll, SparesOne;
      QuicAllLeads(c, op.action, s, op.quicReals, id, a);
    } else {
      QuicUntouched(c, s, op, s');
      StepOneWay(c, s, op, s');
      assert a in s'.pool.reals;
      hide PoolOk, Covered, BooksOf, Step, OneWay;
      SameNumber(s.pool, s'.pool, a);
    }
  }

  lemma QuicUntouched(c: Config, s: Lb, op: Op, s': Lb)
    requires c.ringSize >= 2 && PoolOk(s.pool) && Step(c, s, op, s') && !op.ModifyQuic?
    ensures s'.quic == s.quic && s'.kernel.quic == s.kernel.quic
  {
    hide PoolOk, DoReals, PushDelta, Diff, Batch, AddRules, DelRules, ReleaseAll, Def, NewFlags;
    match op
    case AddSrcRules(srcs, dst) => AddRulesNames(c, s, srcs, dst);
    case DelSrcRules(srcs) => DelRulesNames(s, srcs);
    case ClearSrcRules =>
      var srcs :| Distinct(srcs) && Elements(srcs) == s.rules.Keys && s' == DelRules(s, srcs);
      DelRulesNames(s, srcs);
    case _ =>
  }

  /** The calls from `i` to `j` spare the mapping. */
  ghost predicate SparedBetween(c: Config, ops: seq<Op>, i: nat, j: nat, id: nat, a: Addr)
    requires j <= |ops|
  {
    forall m :: i <= m < j ==> Spares(c, ops[m], id, a)
  }

  /**
   From the call that maps an id to an address on, as long as no call deletes the mapping or
   gives the id to another address, the id leads to that address.
   */
  lemma {:induction false} MappedIdLeads(c: Config, ops: seq<Op>, ss: seq<Lb>, i: nat, j: nat, id: nat, a: Addr)
    requires c.ringSize >= 2 && Calls(c, ops, ss) && NoRepeats(c, ops) && i < j <= |ops|
    requires ops[i].ModifyQuic? && ops[i].action == Add && a !in ss[i].quic && a in ss[i + 1].quic
      && ss[i + 1].quic[a] == id
    requires SparedBetween(c, ops, i, j, id, a)
    ensures Leads(ss[j], id, a)
    decreases j
  {
    hide Step, Covered, NumbersOk, Leads, Spares, BooksOf;
    if j == i + 1 {
      assert Step(c, ss[i], ops[i], ss[i + 1]) && Spares(c, ops[i], id, a);
      CallsKeepNumbers(c, ops, ss, i);
      NewMappingLeads(c, ss[i], ops[i], ss[i + 1], id, a);
    } else {
      MappedIdLeads(c, ops, ss, i, j - 1, id, a);
      CallsKeepCovered(c, ops, ss, j - 1);
      CallsKeepCovered(c, ops, ss, j);
      assert Step(c, ss[j - 1], ops[j - 1], ss[j - 1 + 1]);
      StepKeepsLeads(c, ss[j - 1], ops[j - 1], ss[j], id, a);
    }
  }

  lemma NewMappingLeads(c: Config, s: Lb, op: Op, s': Lb, id: nat, a: Addr)
    requires c.ringSize >= 2 && NumbersOk(c, s) && Step(c, s, op, s') && Spares(c, op, id, a)
    requires op.ModifyQuic? && op.action == Add && a !in s.quic && a in s'.quic && s'.quic[a] == id
    ensures Leads(s', id, a)
  {
    hide Leads, QuicAll, PoolOk, VipNumbersOk, SparesOne;
    QuicAllLeads(c, Add, s, op.quicReals, id, a);
  }

  /** A packet of a QUIC VIP that carries a leading id in range goes to the mapped address. */
  lemma QuicPacketReachesItsReal(c: Config, s: Lb, e: Env, cpu: Cpu, p: Packet, now: Clock, meta: VipMeta, id: nat,
                                 a: Addr)
    requires NumbersOk(c, s) && Built(e, c) && e.ringSize > 0 && Leads(s, id, a)
    requires EntryFor(TablesOf(s), p.flow, meta) && meta.flags & 4 != 0
    requires p.size <= MAX_PCKT_SIZE && p.quicId == id && 1 <= id <= 65534
    ensures Process(e, TablesOf(s), cpu, p, now) == Result(cpu, Send(s.pool.reals[a].num, a), false)
  {
    NumbersDiffer(s.pool);
    assert s.pool.mirror[s.pool.reals[a].num] == a;
    QuicDecides(e, TablesOf(s), cpu, p, now, meta);
    hide Process, NumbersOk;
  }

  /** Ids 0 and 65535 are accepted for mapping and never routed. */
  lemma EdgeIdsAcceptedNeverRouted(c: Config, s: Lb, q: QuicReal, a: Addr, t: Tables, meta: VipMeta)
    requires PoolOk(s.pool) && c.parse(q.address) == Some(a) && (q.id == 0 || q.id == 65535)
    requires a !in s.quic && NumberFor(s.pool, a) != s.pool.max
    ensures var s' := QuicOne(c, Add, s, q); a in s'.quic && s'.quic[a] == q.id
    ensures QuicRoute(t, meta, q.id).None?
  {
  }
}
