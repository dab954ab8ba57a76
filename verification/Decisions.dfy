/**
 What the forwarding plane decides, told by the VIP's flag bits, the connection table and the
 rate limiter: which packets a VIP serves, when the table decides, when a new flow is stored,
 and where a packet without an entry goes.
 */
module Decisions {
  import opened Options
  import opened Allocator
  import opened ControlPlane
  import opened DataPlane

  /** Unsigned 64-bit time that passed. */
  function Elapsed(since: nat, now: nat): nat {
    if since <= now then now - since else (now - since) % 0x1_0000_0000_0000_0000
  }

  // ---------------------------------------------------------------------
  // Whose packet it is
  // ---------------------------------------------------------------------

  /** The entry that serves the packet: its own port's if there is one, else that of all ports. */
  predicate EntryFor(t: Tables, flow: FlowKey, meta: VipMeta) {
    var own, all := VipDef(flow.dst, flow.dport, flow.proto), VipDef(flow.dst, 0, flow.proto);
    if own in t.kernel.vipMap then t.kernel.vipMap[own] == meta
    else all in t.kernel.vipMap && t.kernel.vipMap[all] == meta
  }

  /** The packet is served by this VIP, and the connection table knows its flow by this key. */
  predicate Served(t: Tables, p: Packet, meta: VipMeta, key: FlowKey) {
    && EntryFor(t, p.flow, meta) && p.size <= 1514 && (meta.flags & 4 != 0 ==> p.quicId <= 0 || p.quicId >= 65535)
    && key.src == p.flow.src && key.dst == p.flow.dst && key.proto == p.flow.proto
    && key.sport == (if meta.flags & 1 != 0 then 0 else p.flow.sport)
    && key.dport == if VipDef(p.flow.dst, p.flow.dport, p.flow.proto) in t.kernel.vipMap || meta.flags & 8 != 0
                    then p.flow.dport else 0
  }

  lemma ServedIsBalanced(e: Env, t: Tables, cpu: Cpu, p: Packet, now: Clock, meta: VipMeta, key: FlowKey)
    requires e.ringSize > 0 && Served(t, p, meta, key)
    ensures Process(e, t, cpu, p, now) == Balance(e, t, cpu, p, meta, key, now)
    ensures FinalFlow(e, t, cpu, p, now) == SentFlow(e, t, cpu, p, meta, key, now)
    ensures Resolve(t, p.flow).Some? && Resolve(t, p.flow).value.0 == meta && QuicRoute(t, meta, p.quicId).None?
    ensures TableKey(meta, Resolve(t, p.flow).value.1) == key
  {
    hide Balance, SentFlow;
  }

  /** What happens to the packets that no table or ring decides. */
  lemma NotServed(e: Env, t: Tables, cpu: Cpu, p: Packet, now: Clock)
    requires e.ringSize > 0
    ensures var own, all := VipDef(p.flow.dst, p.flow.dport, p.flow.proto), VipDef(p.flow.dst, 0, p.flow.proto);
      var r := Process(e, t, cpu, p, now);
      && (own !in t.kernel.vipMap && all !in t.kernel.vipMap <==> r.verdict == Pass)
      && (r.verdict == Pass ==> r.cpu == cpu && !r.inserted)
      && (p.size > 1514 && r.verdict != Pass ==> r == Result(cpu, Drop, false))
  {
    hide GetDst, Touch, Lookup, Has;
  }

  /** A packet of a QUIC VIP with an id from 1 to 65534 goes to the number of the id, past table and limiter. */
  lemma QuicDecides(e: Env, t: Tables, cpu: Cpu, p: Packet, now: Clock, meta: VipMeta)
    requires e.ringSize > 0 && EntryFor(t, p.flow, meta) && meta.flags & 4 != 0 && p.size <= 1514
    requires 1 <= p.quicId <= 65534
    ensures var n := if p.quicId in t.kernel.quic then t.kernel.quic[p.quicId as nat] else 0;
      Process(e, t, cpu, p, now) == Result(cpu, if n >= e.maxReals then Drop else Send(n, AddressAt(t, n)), false)
  {
  }

  /** What the table of reals holds; unwritten entries are zero. */
  function AddressAt(t: Tables, n: nat): Addr {
    if n in t.reals then t.reals[n] else V4(0)
  }

  // ---------------------------------------------------------------------
  // The connection table
  // ---------------------------------------------------------------------

  /** The flow has an entry that may be used: no SYN, no bypass, and for UDP not older than the timeout. */
  predicate Hit(e: Env, cpu: Cpu, p: Packet, meta: VipMeta, key: FlowKey, now: Clock) {
    && !p.syn && meta.flags & 2 == 0 && key in cpu.lru && cpu.lru[key].pos < e.maxReals
    && (key.proto == 17 ==> Elapsed(cpu.lru[key].atime, now.lookup) <= e.udpTimeout)
  }

  /** Then the entry decides, nothing is counted, and a UDP entry is refreshed. */
  lemma HitDecides(e: Env, t: Tables, cpu: Cpu, p: Packet, now: Clock, meta: VipMeta, key: FlowKey)
    requires e.ringSize > 0 && Served(t, p, meta, key) && Hit(e, cpu, p, meta, key, now)
    ensures var r, n := Process(e, t, cpu, p, now), cpu.lru[key].pos;
      && r.verdict == Send(n, AddressAt(t, n)) && !r.inserted && r.cpu.conns == cpu.conns
      && r.cpu.quantum == cpu.quantum
      && r.cpu.lru == cpu.lru[key := LruEntry(n, if key.proto == 17 then now.lookup else cpu.lru[key].atime)]
  {
    ServedIsBalanced(e, t, cpu, p, now, meta, key);
    hide Process, GetDst;
  }

  // ---------------------------------------------------------------------
  // New flows
  // ---------------------------------------------------------------------

  /** A new second begins, or fewer connections than the limit were counted in this one. */
  predicate Admitted(e: Env, cpu: Cpu, now: Clock) {
    Elapsed(cpu.quantum, now.miss) > 1_000_000_000 || cpu.conns < e.maxConnRate
  }

  /** The number a source rule gives to the packet, if one applies. */
  function RuleNumber(e: Env, t: Tables, cpu: Cpu, p: Packet, meta: VipMeta, key: FlowKey, now: Clock): Option<nat> {
    if e.srcLookup && meta.flags & 16 != 0 && Admitted(e, cpu, now) then e.lpm(t.kernel.rules, key.src, p.isIpv6)
    else None
  }

  /** The key that the ring hashes: with F_HASH_DPORT_ONLY no source, and the destination port twice. */
  function RingKey(meta: VipMeta, key: FlowKey): FlowKey {
    if meta.flags & 8 != 0 then FlowKey([0, 0, 0, 0], key.dst, key.dport, key.dport, key.proto) else key
  }

  /** Without an entry the packet is counted, and goes where the rule says, else where the ring says. */
  lemma MissDecides(e: Env, t: Tables, cpu: Cpu, p: Packet, now: Clock, meta: VipMeta, key: FlowKey)
    requires e.ringSize > 0 && Served(t, p, meta, key) && !Hit(e, cpu, p, meta, key, now)
    ensures var r, rule := Process(e, t, cpu, p, now), RuleNumber(e, t, cpu, p, meta, key, now);
      var cell := CellFor(e, meta, e.flowHash(RingKey(meta, key), p.isIpv6));
      && (rule.Some? ==> r.verdict == if rule.value < e.maxReals then SendNumber(t, rule.value) else Drop)
      && (rule.None? && cell < e.maxVips * e.ringSize && RingEntry(t, cell) >= 0 ==>
            r.verdict == if RingEntry(t, cell) < e.maxReals then SendNumber(t, RingEntry(t, cell)) else Drop)
      && (rule.None? && cell >= e.maxVips * e.ringSize ==> r.verdict == Drop)
      && (if Elapsed(cpu.quantum, now.miss) > 1_000_000_000
          then r.cpu.conns == 1 && r.cpu.quantum == now.miss
          else r.cpu.conns == cpu.conns + 1 && r.cpu.quantum == cpu.quantum)
  {
    ServedIsBalanced(e, t, cpu, p, now, meta, key);
    var cpu1 := MissIsChosen(e, t, cpu, p, now, meta, key);
    hide Process, Balance, Served, Hit, SubU64;
  }

  function SendNumber(t: Tables, n: int): Verdict
    requires n >= 0
  {
    Send(n, AddressAt(t, n))
  }

  /** The VIP's slice of the ring array starts at its number times the ring size. */
  function CellFor(e: Env, meta: VipMeta, h: nat): nat
    requires e.ringSize > 0
  {
    e.ringSize * meta.num + h % e.ringSize
  }

  /** A cell of the ring array; unwritten ones are zero. */
  function RingEntry(t: Tables, cell: nat): int {
    if cell in t.kernel.rings then t.kernel.rings[cell] else 0
  }

  /** A miss is a choice on the state that the lookup left. */
  lemma MissIsChosen(e: Env, t: Tables, cpu: Cpu, p: Packet, now: Clock, meta: VipMeta, key: FlowKey)
    returns (cpu1: Cpu)
    requires e.ringSize > 0 && !Hit(e, cpu, p, meta, key, now)
    ensures SameBut(cpu, cpu1, key)
    ensures var m := GetDst(e, t, cpu1, key, meta, p.isIpv6, now.miss);
      Balance(e, t, cpu, p, meta, key, now) ==
        if m.dst.None? then Result(m.cpu, Drop, m.inserted) else SendTo(e, t, m.cpu, m.dst.value, m.inserted)
  {
    var look := !p.syn && !Has(meta.flags, F_LRU_BYPASS);
    cpu1 := if look then Touch(e, cpu, key, now.lookup) else cpu;
    hide GetDst;
  }

  /** The states differ in the flow's own entry at most. */
  predicate SameBut(cpu: Cpu, cpu1: Cpu, key: FlowKey) {
    cpu1.conns == cpu.conns && cpu1.quantum == cpu.quantum && cpu1.lru - {key} == cpu.lru - {key}
  }

  /**
   A packet without an entry is stored if and only if the VIP does not bypass the table, the
   limiter admits it and it is sent at all. The table then maps the flow to the number it was
   sent to, under the key of its next packets unless the ring hashed another one.
   */
  lemma StoredIff(e: Env, t: Tables, cpu: Cpu, p: Packet, now: Clock, meta: VipMeta, key: FlowKey)
    requires e.ringSize > 0 && Served(t, p, meta, key) && !Hit(e, cpu, p, meta, key, now)
    ensures var r := Process(e, t, cpu, p, now);
      var stored := if RuleNumber(e, t, cpu, p, meta, key, now).Some? then key else RingKey(meta, key);
      && (r.inserted <==> meta.flags & 2 == 0 && Admitted(e, cpu, now) && r.verdict.Send?)
      && (r.inserted ==>
            stored in r.cpu.lru
            && r.cpu.lru[stored] == LruEntry(r.verdict.num, if key.proto == 17 then now.miss else 0))
      && r.cpu.lru - {key, stored} == cpu.lru - {key, stored}
  {
    hide Process, Balance, Served, Hit, GetDst, RuleNumber, Admitted;
    ServedIsBalanced(e, t, cpu, p, now, meta, key);
    var cpu1 := MissIsChosen(e, t, cpu, p, now, meta, key);
    ChoiceStores(e, t, cpu, cpu1, p, now, meta, key);
    var stored := if RuleNumber(e, t, cpu, p, meta, key, now).Some? then key else RingKey(meta, key);
    OthersSame(cpu, cpu1, key, stored);
    var r := Process(e, t, cpu, p, now);
    if r.inserted { WriteIsLocal(cpu1.lru, stored, r.cpu.lru[stored], key); }
  }

  lemma WriteIsLocal(lru: map<FlowKey, LruEntry>, k: FlowKey, v: LruEntry, key: FlowKey)
    ensures lru[k := v] - {key, k} == lru - {key, k}
  {
  }

  lemma OthersSame(cpu: Cpu, cpu1: Cpu, key: FlowKey, stored: FlowKey)
    requires SameBut(cpu, cpu1, key)
    ensures cpu1.lru - {key, stored} == cpu.lru - {key, stored}
  {
    assert cpu1.lru - {key, stored} == (cpu1.lru - {key}) - {stored};
    assert cpu.lru - {key, stored} == (cpu.lru - {key}) - {stored};
  }

  /** The choice itself: below the maximum exactly when it is sent. */
  lemma ChoiceStores(e: Env, t: Tables, cpu: Cpu, cpu1: Cpu, p: Packet, now: Clock, meta: VipMeta, key: FlowKey)
    requires e.ringSize > 0 && SameBut(cpu, cpu1, key)
    ensures var m := GetDst(e, t, cpu1, key, meta, p.isIpv6, now.miss);
      var stored := if RuleNumber(e, t, cpu, p, meta, key, now).Some? then key else RingKey(meta, key);
      && (m.inserted <==> meta.flags & 2 == 0 && Admitted(e, cpu, now) && m.dst.Some?)
      && (m.dst.Some? ==> m.dst.value < e.maxReals)
      && m.cpu.lru ==
         if m.inserted then cpu1.lru[stored := LruEntry(m.dst.value, if key.proto == 17 then now.miss else 0)]
         else cpu1.lru
  {
    hide SubU64, RingNumber, SameBut;
    assert cpu1.conns == cpu.conns && cpu1.quantum == cpu.quantum by { Counters(cpu, cpu1, key); }
    SameElapsed(cpu.quantum, now.miss);
  }

  lemma Counters(cpu: Cpu, cpu1: Cpu, key: FlowKey)
    requires SameBut(cpu, cpu1, key)
    ensures cpu1.conns == cpu.conns && cpu1.quantum == cpu.quantum
  {
  }

  lemma SameElapsed(since: nat, now: nat)
    ensures SubU64(now, since) == Elapsed(since, now)
  {
  }

  /** What is too old decides nothing: the packet is treated as if the table did not know the flow. */
  lemma StaleIgnored(e: Env, t: Tables, cpu: Cpu, p: Packet, now: Clock, meta: VipMeta, key: FlowKey)
    requires e.ringSize > 0 && Served(t, p, meta, key) && key in cpu.lru && key.proto == 17
    requires Elapsed(cpu.lru[key].atime, now.lookup) > e.udpTimeout
    ensures var r, s := Process(e, t, cpu, p, now), Process(e, t, cpu.(lru := cpu.lru - {key}), p, now);
      r.verdict == s.verdict && r.inserted == s.inserted && r.cpu.conns == s.cpu.conns && r.cpu.quantum == s.cpu.quantum
  {
    ServedIsBalanced(e, t, cpu, p, now, meta, key);
    ServedIsBalanced(e, t, cpu.(lru := cpu.lru - {key}), p, now, meta, key);
    SameElapsed(cpu.lru[key].atime, now.lookup);
    hide Process, Served, SubU64, FinalFlow, SentFlow, Resolve, QuicRoute, TableKey, GetDst;
    ChoiceIgnoresTable(e, t, cpu, cpu.(lru := cpu.lru - {key}), key, meta, p.isIpv6, now.miss);
  }

  lemma ChoiceIgnoresTable(e: Env, t: Tables, cpu: Cpu, cpu': Cpu, key: FlowKey, meta: VipMeta, isIpv6: bool, now: nat)
    requires e.ringSize > 0 && cpu'.conns == cpu.conns && cpu'.quantum == cpu.quantum
    ensures var m, m' := GetDst(e, t, cpu, key, meta, isIpv6, now), GetDst(e, t, cpu', key, meta, isIpv6, now);
      && m.dst == m'.dst && m.inserted == m'.inserted
      && m.cpu.conns == m'.cpu.conns && m.cpu.quantum == m'.cpu.quantum
  {
    hide Choose, SubU64;
  }

  /** The source that the outer header mixes in: what the table or rule knew it by, or what the ring hashed. */
  lemma SentSource(e: Env, t: Tables, cpu: Cpu, p: Packet, now: Clock, meta: VipMeta, key: FlowKey)
    requires e.ringSize > 0 && Served(t, p, meta, key)
    ensures FinalFlow(e, t, cpu, p, now) ==
      if Hit(e, cpu, p, meta, key, now) || RuleNumber(e, t, cpu, p, meta, key, now).Some? then key
      else RingKey(meta, key)
  {
    ServedIsBalanced(e, t, cpu, p, now, meta, key);
    hide FinalFlow, Process, RingNumber;
  }
}
