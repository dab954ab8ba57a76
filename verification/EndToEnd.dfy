/**
 Control plane and forwarding plane together: where a packet goes after any run of
 control-plane calls, when neither the connection table, a QUIC id nor a source rule decides.
 */
module EndToEnd {
  import opened Options
  import opened Residues
  import opened Probing
  import opened Vips
  import opened Allocator
  import opened Prefixes
  import opened ControlPlane
  import opened TableSafety
  import opened Runs
  import opened Forwarding
  import opened DataPlane
  import opened Decisions
  import UserView

  /** The forwarding plane was built for this configuration. */
  ghost predicate Built(e: Env, c: Config) {
    e.ringSize == c.ringSize && e.maxVips == c.maxVips && e.maxReals == c.maxReals
  }

  function TablesOf(s: Lb): Tables {
    Tables(s.kernel, s.pool.mirror)
  }

  /** The packet's VIP and key; nothing but the ring is left to decide. */
  ghost predicate RingDecides(e: Env, t: Tables, cpu: Cpu, p: Packet, now: Clock, meta: VipMeta, key: FlowKey) {
    && Served(t, p, meta, key) && !Hit(e, cpu, p, meta, key, now)
    && RuleNumber(e, t, cpu, p, meta, key, now).None?
  }

  /** The VIP entry that serves the packet belongs to a configured VIP. */
  lemma ServedByConfigured(c: Config, s: Lb, p: Packet, meta: VipMeta, key: FlowKey) returns (k: VipKey)
    requires EntriesOwned(c, s) && Served(TablesOf(s), p, meta, key)
    ensures k in s.vips && meta == MetaFor(s.vips[k])
    ensures Def(c, k) == VipDef(p.flow.dst, p.flow.dport, p.flow.proto)
         || Def(c, k) == VipDef(p.flow.dst, 0, p.flow.proto)
  {
    hide Def;
    var exact, any := VipDef(p.flow.dst, p.flow.dport, p.flow.proto), VipDef(p.flow.dst, 0, p.flow.proto);
    var d := if exact in s.kernel.vipMap then exact else any;
    assert OwnedByVip(c, s, d, s.kernel.vipMap[d]);
    k :| k in s.vips && Def(c, k) == d && MetaFor(s.vips[k]) == s.kernel.vipMap[d];
  }

  /** The ring cell of the kernel is the cell of the VIP's own ring. */
  lemma KernelCellIsRing(c: Config, s: Lb, e: Env, k: VipKey, h: nat)
    requires c.ringSize >= 2 && TablesOk(c, s) && Built(e, c) && k in s.vips && HasActive(s.vips[k].reals)
    ensures |s.vips[k].ring| == c.ringSize
    ensures var cell := CellFor(e, MetaFor(s.vips[k]), h);
      cell < e.maxVips * e.ringSize && RingEntry(TablesOf(s), cell) == s.vips[k].ring[h % c.ringSize]
  {
    hide TablesOk, SliceOk, IsActive, HasActive, RingReal, InSync, HashesOk, PoolOk;
    var v := s.vips[k];
    TablesVip(c, s, k);
    LookupCell(c, s, k, h);
    CellValue(c, s.kernel.rings, v, h % c.ringSize);
    CellInside(v.num, e.maxVips, e.ringSize, h % c.ringSize);
  }

  lemma CellInside(n: nat, vips: nat, size: nat, pos: nat)
    requires n < vips && pos < size
    ensures size * n + pos < vips * size
  {
    ProductMonotone(n, vips - 1, size, size);
    Distribute(size, vips, 1);
  }

  /** The VIP has the packet's destination, its protocol, and its port or none. */
  ghost predicate Addressed(c: Config, k: VipKey, flow: FlowKey) {
    && c.parse(k.address).Some? && k.proto == flow.proto && (k.port == flow.dport || k.port == 0)
    && match c.parse(k.address).value
       case V4(w) => flow.dst == [w, 0, 0, 0]
       case V6(w0, w1, w2, w3) => flow.dst == [w0, w1, w2, w3]
  }

  /**
   After any control-plane calls without repeated deletions, a packet that the ring decides goes
   to the real that its VIP's ring names at the hash of its flow: one configured with nonzero
   weight on the packet's own VIP, if it has one.
   */
  lemma PacketReachesConfiguredReal(c: Config, ops: seq<Op>, ss: seq<Lb>, i: nat, e: Env, cpu: Cpu, p: Packet,
                                    now: Clock, meta: VipMeta, key: FlowKey)
    returns (k: VipKey)
    requires ConfigOk(c) && Calls(c, ops, ss) && NoRepeats(c, ops) && i < |ss| && Built(e, c)
    requires RingDecides(e, TablesOf(ss[i]), cpu, p, now, meta, key)
    ensures k in ss[i].vips && meta == MetaFor(ss[i].vips[k]) && Addressed(c, k, p.flow)
    ensures HasActive(ss[i].vips[k].reals) ==>
      var v, ring := Process(e, TablesOf(ss[i]), cpu, p, now).verdict, ss[i].vips[k].ring;
      && |ring| == c.ringSize && v.Send? && v.num == ring[e.flowHash(RingKey(meta, key), p.isIpv6) % c.ringSize]
      && v.num in ss[i].vips[k].reals && (v.addr, ss[i].vips[k].reals[v.num].weight) in Configured(ss[i], k)
  {
    CallsKeepTables(c, ops, ss, i);
    CallsKeepParsed(c, ops, ss, i);
    hide Calls, NoRepeats, HasActive, Configured, Process;
    k := ServedByConfigured(c, ss[i], p, meta, key);
    assert Addressed(c, k, p.flow);
    hide TablesOk, RingDecides, Def, Addressed;
    if HasActive(ss[i].vips[k].reals) {
      ReachesReal(c, ss[i], k, e, cpu, p, now, meta, key);
    }
  }

  lemma ReachesReal(c: Config, s: Lb, k: VipKey, e: Env, cpu: Cpu, p: Packet, now: Clock, meta: VipMeta, key: FlowKey)
    requires c.ringSize >= 2 && TablesOk(c, s) && Built(e, c) && k in s.vips && HasActive(s.vips[k].reals)
    requires meta == MetaFor(s.vips[k]) && RingDecides(e, TablesOf(s), cpu, p, now, meta, key)
    ensures var v, ring := Process(e, TablesOf(s), cpu, p, now).verdict, s.vips[k].ring;
      && |ring| == c.ringSize && v.Send? && v.num == ring[e.flowHash(RingKey(meta, key), p.isIpv6) % c.ringSize]
      && v.num in s.vips[k].reals && (v.addr, s.vips[k].reals[v.num].weight) in Configured(s, k)
  {
    var h := e.flowHash(RingKey(meta, key), p.isIpv6);
    hide Process, RingKey, TablesOk, HasActive, RingReal, Served, Hit, RuleNumber;
    LookupCell(c, s, k, h);
    KernelCellIsRing(c, s, e, k, h);
    var n := s.vips[k].ring[h % c.ringSize];
    ActiveIsLive(c, s, k, n);
    MissDecides(e, TablesOf(s), cpu, p, now, meta, key);
  }

  /** The number of an active real is live and written to the kernel. */
  lemma ActiveIsLive(c: Config, s: Lb, k: VipKey, n: nat)
    requires c.ringSize >= 2 && TablesOk(c, s) && k in s.vips && IsActive(s.vips[k].reals, n)
    ensures n in s.pool.names && n < c.maxReals && n in s.pool.mirror && s.pool.mirror[n] == s.pool.names[n]
  {
    TablesVip(c, s, k);
    hide TablesOk, InSync, SliceOk;
  }

  // ---------------------------------------------------------------------
  // Source rules
  // ---------------------------------------------------------------------

  /** The prefix lookup finds the longest match, and finds one whenever a prefix contains the source. */
  ghost predicate LookupSound(e: Env, rules: map<LpmKey, nat>, src: seq<nat>, isIpv6: bool) {
    match e.lpm(rules, src, isIpv6)
    case Some(n) => exists q :: LongestMatch(rules.Keys, q, src, isIpv6) && rules[q] == n
    case None => forall q :: q in rules ==> !Contains(q, src, isIpv6)
  }

  /** The packet misses the connection table and a source rule applies. */
  ghost predicate RuleDecides(e: Env, t: Tables, cpu: Cpu, p: Packet, now: Clock, meta: VipMeta, key: FlowKey, n: nat) {
    && Served(t, p, meta, key) && !Hit(e, cpu, p, meta, key, now)
    && RuleNumber(e, t, cpu, p, meta, key, now) == Some(n)
  }

  /**
   After any calls without repeated deletions, a packet decided by a source rule goes to the
   address the caller gave for a rule whose leading bits are the longest match in the kernel;
   if the prefixes were masked, it is the one rule of longest prefix that contains the source.
   */
  lemma SourceRuleReachesItsReal(c: Config, ops: seq<Op>, ss: seq<Lb>, i: nat, e: Env, cpu: Cpu, p: Packet,
                                 now: Clock, meta: VipMeta, key: FlowKey, n: nat) returns (r: Net)
    requires c.ringSize >= 2 && Calls(c, ops, ss) && NoRepeats(c, ops) && i < |ss| && Built(e, c)
    requires RuleDecides(e, TablesOf(ss[i]), cpu, p, now, meta, key, n)
    requires LookupSound(e, ss[i].kernel.rules, key.src, p.isIpv6)
    ensures r in UserView.Rules(ss[i]) && LongestMatch(ss[i].kernel.rules.Keys, KeyOf(r), key.src, p.isIpv6)
    ensures Process(e, TablesOf(ss[i]), cpu, p, now).verdict == Send(n, UserView.Rules(ss[i])[r])
    ensures MaskedNets(ops) ==> forall q :: q in ss[i].rules && q != r && Contains(KeyOf(q), key.src, p.isIpv6) ==>
      q.prefixLen < r.prefixLen
  {
    var s := ss[i];
    CallsKeepCovered(c, ops, ss, i);
    CallsKeepNumbers(c, ops, ss, i);
    UserView.RulesLive(s);
    hide Calls, NoRepeats, Contains, VipNumbersOk, KeyOf, LongestMatch;
    assert e.lpm(s.kernel.rules, key.src, p.isIpv6) == Some(n);
    var k :| LongestMatch(s.kernel.rules.Keys, k, key.src, p.isIpv6) && s.kernel.rules[k] == n;
    assert OwnedByRule(s.rules, k, n) by { MatchIsKey(s.kernel.rules.Keys, k, key.src, p.isIpv6); }
    r :| r in s.rules && KeyOf(r) == k && s.rules[r] == n;
    assert n in s.pool.names && n < c.maxReals && s.pool.mirror[n] == s.pool.names[n];
    hide Covered, Process, RuleNumber, NumbersOk, Served, Hit;
    MissDecides(e, TablesOf(s), cpu, p, now, meta, key);
    if MaskedNets(ops) {
      CallsKeepMasked(c, ops, ss, i);
      LongestRule(s, r, key.src, p.isIpv6);
    }
  }

  lemma MatchIsKey(keys: set<LpmKey>, q: LpmKey, src: seq<nat>, isIpv6: bool)
    requires LongestMatch(keys, q, src, isIpv6)
    ensures q in keys
  {
  }

  /** Among masked rules the longest match of the kernel is the longest rule. */
  lemma LongestRule(s: Lb, r: Net, src: seq<nat>, isIpv6: bool)
    requires RulesFound(s) && AllMasked(s.rules.Keys) && r in s.rules
    requires LongestMatch(s.kernel.rules.Keys, KeyOf(r), src, isIpv6)
    ensures forall q :: q in s.rules && q != r && Contains(KeyOf(q), src, isIpv6) ==> q.prefixLen < r.prefixLen
  {
    hide Masked, Value, Rest;
    forall q | q in s.rules && q != r && Contains(KeyOf(q), src, isIpv6) ensures q.prefixLen < r.prefixLen {
      assert KeyOf(q) in s.kernel.rules.Keys;
      if KeyOf(q) == KeyOf(r) { MaskedKeysDiffer(q, r); }
    }
  }
}
