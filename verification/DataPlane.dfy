/**
 The forwarding plane's decision for one packet (balancer_kern.c), on the kernel tables that
 the control plane writes and the per-CPU connection table and rate counter.
 */
module DataPlane {
  import opened Options
  import opened Allocator
  import opened Prefixes
  import opened ControlPlane

  const U64: nat := 0x1_0000_0000_0000_0000
  const ONE_SEC: nat := 1_000_000_000
  const MAX_PCKT_SIZE: nat := 1514
  const MAX_QUIC_REALS: nat := 65535
  const IPPROTO_UDP: nat := 17

  const F_HASH_NO_SRC_PORT: bv32 := 1
  const F_LRU_BYPASS: bv32 := 2
  const F_QUIC_VIP: bv32 := 4
  const F_HASH_DPORT_ONLY: bv32 := 8
  const F_SRC_ROUTING: bv32 := 16

  predicate Has(flags: bv32, bit: bv32) {
    flags & bit != 0
  }

  /** Unsigned 64-bit difference. */
  function SubU64(a: nat, b: nat): nat {
    if a >= b then a - b else (a - b) % U64
  }

  /** Addresses are the four words of the address union; IPv4 uses the first. */
  datatype FlowKey = FlowKey(src: seq<nat>, dst: seq<nat>, sport: nat, dport: nat, proto: nat)

  /** A parsed packet; `quicId` is what the QUIC parser returned, not positive when there is no id. */
  datatype Packet = Packet(flow: FlowKey, syn: bool, isIpv6: bool, size: nat, quicId: int)

  /** Compile-time settings and the library functions: the flow hash and longest-prefix match. */
  datatype Env = Env(ringSize: nat, maxVips: nat, maxReals: nat, maxConnRate: nat, udpTimeout: nat,
                     srcLookup: bool, flowHash: (FlowKey, bool) -> nat,
                     lpm: (map<LpmKey, nat>, seq<nat>, bool) -> Option<nat>)

  /** The kernel tables: those of the control plane and the table of reals. */
  datatype Tables = Tables(kernel: Kernel, reals: map<nat, Addr>)

  /** The clock as read for the connection table and, on a miss, for the rate limiter. */
  datatype Clock = Clock(lookup: nat, miss: nat)

  datatype LruEntry = LruEntry(pos: nat, atime: nat)

  /** State of one CPU: connection table, and count and start of the rate limiter's quantum. */
  datatype Cpu = Cpu(lru: map<FlowKey, LruEntry>, conns: nat, quantum: nat)

  /** `reals` is an array map: every index below its size is present, unwritten ones are zero. */
  function RealAt(e: Env, t: Tables, n: nat): Option<Addr> {
    if n >= e.maxReals then None else Some(if n in t.reals then t.reals[n] else V4(0))
  }

  // ---------------------------------------------------------------------
  // is_under_flood
  // ---------------------------------------------------------------------

  predicate NewQuantum(cpu: Cpu, now: nat) {
    SubU64(now, cpu.quantum) > ONE_SEC
  }

  function Count(cpu: Cpu, now: nat): Cpu {
    if NewQuantum(cpu, now) then cpu.(conns := 1, quantum := now) else cpu.(conns := cpu.conns + 1)
  }

  predicate UnderFlood(e: Env, cpu: Cpu, now: nat) {
    !NewQuantum(cpu, now) && cpu.conns + 1 > e.maxConnRate
  }

  // ---------------------------------------------------------------------
  // get_packet_dst
  // ---------------------------------------------------------------------

  function RuleFor(e: Env, t: Tables, meta: VipMeta, flow: FlowKey, isIpv6: bool, flood: bool): Option<nat> {
    if e.srcLookup && Has(meta.flags, F_SRC_ROUTING) && !flood then e.lpm(t.kernel.rules, flow.src, isIpv6)
    else None
  }

  /** With the destination-port flag the hashed key, which is also the stored key, forgets the source. */
  function HashedKey(meta: VipMeta, flow: FlowKey): FlowKey {
    if Has(meta.flags, F_HASH_DPORT_ONLY) then flow.(sport := flow.dport, src := [0, 0, 0, 0]) else flow
  }

  function RingCell(e: Env, meta: VipMeta, h: nat): nat
    requires e.ringSize > 0
  {
    e.ringSize * meta.num + h % e.ringSize
  }

  /** Number in the ring; none when the cell is outside the array. Negative cells do not occur in kernels. */
  function RingNumber(e: Env, t: Tables, meta: VipMeta, flow: FlowKey, isIpv6: bool): Option<nat>
    requires e.ringSize > 0
  {
    var cell := RingCell(e, meta, e.flowHash(flow, isIpv6));
    if cell >= e.maxVips * e.ringSize then None
    else if cell in t.kernel.rings then
      if t.kernel.rings[cell] >= 0 then Some(t.kernel.rings[cell]) else None
    else Some(0)
  }

  /** Which number a miss resolves to, and the key it would be stored under. */
  function Choose(e: Env, t: Tables, meta: VipMeta, flow: FlowKey, isIpv6: bool, flood: bool): (Option<nat>, FlowKey)
    requires e.ringSize > 0
  {
    match RuleFor(e, t, meta, flow, isIpv6, flood)
    case Some(n) => (Some(n), flow)
    case None => (RingNumber(e, t, meta, HashedKey(meta, flow), isIpv6), HashedKey(meta, flow))
  }

  datatype Miss = Miss(cpu: Cpu, dst: Option<nat>, inserted: bool)

  function GetDst(e: Env, t: Tables, cpu: Cpu, flow: FlowKey, meta: VipMeta, isIpv6: bool, now: nat): Miss
    requires e.ringSize > 0
  {
    var flood := UnderFlood(e, cpu, now);
    var cpu1 := Count(cpu, now);
    var (n, key) := Choose(e, t, meta, flow, isIpv6, flood);
    if n.None? || n.value >= e.maxReals then Miss(cpu1, None, false)
    else if Has(meta.flags, F_LRU_BYPASS) || flood then Miss(cpu1, n, false)
    else Miss(cpu1.(lru := cpu1.lru[key := LruEntry(n.value, if key.proto == IPPROTO_UDP then now else 0)]), n, true)
  }

  // ---------------------------------------------------------------------
  // connection_table_lookup
  // ---------------------------------------------------------------------

  predicate Fresh(e: Env, cpu: Cpu, flow: FlowKey, now: nat) {
    flow in cpu.lru && (flow.proto == IPPROTO_UDP ==> SubU64(now, cpu.lru[flow].atime) <= e.udpTimeout)
  }

  function Touch(e: Env, cpu: Cpu, flow: FlowKey, now: nat): Cpu {
    if Fresh(e, cpu, flow, now) && flow.proto == IPPROTO_UDP
    then cpu.(lru := cpu.lru[flow := LruEntry(cpu.lru[flow].pos, now)]) else cpu
  }

  function Lookup(e: Env, cpu: Cpu, flow: FlowKey, now: nat): Option<nat> {
    if Fresh(e, cpu, flow, now) && cpu.lru[flow].pos < e.maxReals then Some(cpu.lru[flow].pos) else None
  }

  // ---------------------------------------------------------------------
  // process_packet
  // ---------------------------------------------------------------------

  /** The VIP of a packet and its flow key, without the destination port where the VIP ignores it. */
  function Resolve(t: Tables, flow: FlowKey): Option<(VipMeta, FlowKey)> {
    var exact, any := VipDef(flow.dst, flow.dport, flow.proto), VipDef(flow.dst, 0, flow.proto);
    if exact in t.kernel.vipMap then Some((t.kernel.vipMap[exact], flow))
    else if any in t.kernel.vipMap then
      var meta := t.kernel.vipMap[any];
      Some((meta, if Has(meta.flags, F_HASH_DPORT_ONLY) then flow else flow.(dport := 0)))
    else None
  }

  /** QUIC routing decides only for QUIC VIPs and ids the mapping array holds. */
  function QuicRoute(t: Tables, meta: VipMeta, quicId: int): Option<nat> {
    if Has(meta.flags, F_QUIC_VIP) && 0 < quicId < MAX_QUIC_REALS
    then Some(if quicId in t.kernel.quic then t.kernel.quic[quicId as nat] else 0) else None
  }

  function TableKey(meta: VipMeta, flow: FlowKey): FlowKey {
    if Has(meta.flags, F_HASH_NO_SRC_PORT) then flow.(sport := 0) else flow
  }

  datatype Verdict = Pass | Drop | Send(num: nat, addr: Addr)

  datatype Result = Result(cpu: Cpu, verdict: Verdict, inserted: bool)

  function SendTo(e: Env, t: Tables, cpu: Cpu, n: nat, inserted: bool): Result {
    match RealAt(e, t, n)
    case None => Result(cpu, Drop, inserted)
    case Some(a) => Result(cpu, Send(n, a), inserted)
  }

  /** A packet of a VIP that no QUIC id routes: connection table first, then rules and ring. */
  function Balance(e: Env, t: Tables, cpu: Cpu, p: Packet, meta: VipMeta, key: FlowKey, now: Clock): Result
    requires e.ringSize > 0
  {
    var look := !p.syn && !Has(meta.flags, F_LRU_BYPASS);
    var cpu1 := if look then Touch(e, cpu, key, now.lookup) else cpu;
    var hit := if look then Lookup(e, cpu, key, now.lookup) else None;
    if hit.Some? then SendTo(e, t, cpu1, hit.value, false)
    else
      var m := GetDst(e, t, cpu1, key, meta, p.isIpv6, now.miss);
      if m.dst.None? then Result(m.cpu, Drop, m.inserted) else SendTo(e, t, m.cpu, m.dst.value, m.inserted)
  }

  function Process(e: Env, t: Tables, cpu: Cpu, p: Packet, now: Clock): Result
    requires e.ringSize > 0
  {
    match Resolve(t, p.flow)
    case None => Result(cpu, Pass, false)
    case Some((meta, flow)) =>
      if p.size > MAX_PCKT_SIZE then Result(cpu, Drop, false)
      else match QuicRoute(t, meta, p.quicId)
        case Some(n) => SendTo(e, t, cpu, n, false)
        case None => Balance(e, t, cpu, p, meta, TableKey(meta, flow), now)
  }

  /** The flow as the decision left it in the packet's description. */
  function SentFlow(e: Env, t: Tables, cpu: Cpu, p: Packet, meta: VipMeta, key: FlowKey, now: Clock): FlowKey
    requires e.ringSize > 0
  {
    var look := !p.syn && !Has(meta.flags, F_LRU_BYPASS);
    if look && Lookup(e, cpu, key, now.lookup).Some? then key
    else
      var cpu1 := if look then Touch(e, cpu, key, now.lookup) else cpu;
      Choose(e, t, meta, key, p.isIpv6, UnderFlood(e, cpu1, now.miss)).1
  }

  function FinalFlow(e: Env, t: Tables, cpu: Cpu, p: Packet, now: Clock): FlowKey
    requires e.ringSize > 0
  {
    match Resolve(t, p.flow)
    case None => p.flow
    case Some((meta, flow)) =>
      if QuicRoute(t, meta, p.quicId).Some? then flow else SentFlow(e, t, cpu, p, meta, TableKey(meta, flow), now)
  }

  // ---------------------------------------------------------------------
  // The program, on one CPU's maps
  // ---------------------------------------------------------------------

  class Balancer {
    const env: Env
    var lru: map<FlowKey, LruEntry>
    var connRate: nat
    var quantumStart: nat

    function State(): Cpu
      reads this
    {
      Cpu(lru, connRate, quantumStart)
    }

    constructor (env: Env)
      ensures this.env == env && State() == Cpu(map[], 0, 0)
    {
      this.env := env;
      lru, connRate, quantumStart := map[], 0, 0;
    }

    method IsUnderFlood(now: nat) returns (flood: bool)
      modifies this`connRate, this`quantumStart
      ensures State() == Count(old(State()), now)
      ensures flood == UnderFlood(env, old(State()), now)
    {
      if SubU64(now, quantumStart) > ONE_SEC {
        connRate := 1;
        quantumStart := now;
      } else {
        connRate := connRate + 1;
        if connRate > env.maxConnRate {
          return true;
        }
      }
      return false;
    }

    method GetPacketDst(t: Tables, flow: FlowKey, meta: VipMeta, isIpv6: bool, now: nat)
      returns (dst: Option<nat>, inserted: bool, pckt: FlowKey)
      requires env.ringSize > 0
      modifies this
      ensures dst.Some? ==> pckt == Choose(env, t, meta, flow, isIpv6, UnderFlood(env, old(State()), now)).1
      ensures Miss(State(), dst, inserted) == GetDst(env, t, old(State()), flow, meta, isIpv6, now)
    {
      hide Has, NewQuantum;
      pckt := flow;
      var flood := IsUnderFlood(now);
      var rule := RuleFor(env, t, meta, flow, isIpv6, flood);
      var num;
      if rule.Some? {
        num := rule.value;
      } else {
        if Has(meta.flags, F_HASH_DPORT_ONLY) {
          pckt := pckt.(sport := pckt.dport, src := [0, 0, 0, 0]);
        }
        var realPos := RingNumber(env, t, meta, pckt, isIpv6);
        if realPos.None? {
          return None, false, pckt;
        }
        num := realPos.value;
      }
      if num >= env.maxReals {
        return None, false, pckt;
      }
      inserted := false;
      if !Has(meta.flags, F_LRU_BYPASS) && !flood {
        lru := lru[pckt := LruEntry(num, if pckt.proto == IPPROTO_UDP then now else 0)];
        inserted := true;
      }
      dst := Some(num);
    }

    method ConnectionTableLookup(flow: FlowKey, now: nat) returns (dst: Option<nat>)
      modifies this`lru
      ensures State() == Touch(env, old(State()), flow, now)
      ensures dst == Lookup(env, old(State()), flow, now)
    {
      if flow !in lru {
        return None;
      }
      if flow.proto == IPPROTO_UDP {
        if SubU64(now, lru[flow].atime) > env.udpTimeout {
          return None;
        }
        lru := lru[flow := LruEntry(lru[flow].pos, now)];
      }
      if lru[flow].pos >= env.maxReals {
        return None;
      }
      dst := Some(lru[flow].pos);
    }

    /** Looks the packet up, and on a miss chooses and stores a real for it. */
    method BalancePacket(t: Tables, p: Packet, meta: VipMeta, key: FlowKey, now: Clock)
      returns (verdict: Verdict, inserted: bool, pckt: FlowKey)
      requires env.ringSize > 0
      modifies this
      ensures Result(State(), verdict, inserted) == Balance(env, t, old(State()), p, meta, key, now)
      ensures verdict.Send? ==> pckt == SentFlow(env, t, old(State()), p, meta, key, now)
    {
      hide Has, GetDst, Touch, Lookup, Choose, UnderFlood;
      pckt := key;
      var dst: Option<nat> := None;
      inserted := false;
      if !p.syn && !Has(meta.flags, F_LRU_BYPASS) {
        dst := ConnectionTableLookup(key, now.lookup);
      }
      if dst.None? {
        dst, inserted, pckt := GetPacketDst(t, key, meta, p.isIpv6, now.miss);
        if dst.None? {
          return Drop, inserted, pckt;
        }
      }
      var addr := RealAt(env, t, dst.value);
      verdict := if addr.None? then Drop else Send(dst.value, addr.value);
    }

    method ProcessPacket(t: Tables, p: Packet, now: Clock) returns (verdict: Verdict, inserted: bool, flow: FlowKey)
      requires env.ringSize > 0
      modifies this
      ensures Result(State(), verdict, inserted) == Process(env, t, old(State()), p, now)
      ensures verdict.Send? ==> flow == FinalFlow(env, t, old(State()), p, now)
    {
      hide Has, Balance, SentFlow;
      inserted := false;
      flow := p.flow;
      var vip := VipDef(flow.dst, flow.dport, flow.proto);
      if vip !in t.kernel.vipMap {
        vip := VipDef(flow.dst, 0, flow.proto);
        if vip !in t.kernel.vipMap {
          return Pass, false, flow;
        }
        if !Has(t.kernel.vipMap[vip].flags, F_HASH_DPORT_ONLY) {
          flow := flow.(dport := 0);
        }
      }
      var meta := t.kernel.vipMap[vip];
      if p.size > MAX_PCKT_SIZE {
        return Drop, false, flow;
      }
      var route := QuicRoute(t, meta, p.quicId);
      if route.Some? {
        var addr := RealAt(env, t, route.value);
        return if addr.None? then Drop else Send(route.value, addr.value), false, flow;
      }
      if Has(meta.flags, F_HASH_NO_SRC_PORT) {
        flow := flow.(sport := 0);
      }
      verdict, inserted, flow := BalancePacket(t, p, meta, flow, now);
    }
  }
}
