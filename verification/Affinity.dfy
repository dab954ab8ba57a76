/**
 The forwarding plane over runs: packets, evictions from the connection table and arbitrary
 changes of the kernel tables, in any order, on one CPU.
 */
module Affinity {
  import opened Options
  import opened ControlPlane
  import opened DataPlane
  import opened Decisions

  datatype Event =
    | Arrive(packet: Packet, now: Clock)
    | Evict(keys: set<FlowKey>)
    | Control(tables: Tables)

  datatype World = World(tables: Tables, cpu: Cpu)

  function Next(e: Env, w: World, ev: Event): World
    requires e.ringSize > 0
  {
    match ev
    case Arrive(p, now) => w.(cpu := Process(e, w.tables, w.cpu, p, now).cpu)
    case Evict(keys) => w.(cpu := w.cpu.(lru := w.cpu.lru - keys))
    case Control(t) => w.(tables := t)
  }

  /** The state before event `i`. */
  function At(e: Env, w: World, evs: seq<Event>, i: nat): World
    requires e.ringSize > 0 && i <= |evs|
  {
    if i == 0 then w else Next(e, At(e, w, evs, i - 1), evs[i - 1])
  }

  // ---------------------------------------------------------------------
  // Keys and VIPs
  // ---------------------------------------------------------------------

  /** The key under which a packet is looked up in the connection table, if it gets that far. */
  function KeyOf(t: Tables, p: Packet): Option<FlowKey> {
    match Resolve(t, p.flow)
    case None => None
    case Some((meta, flow)) =>
      if p.size > MAX_PCKT_SIZE || QuicRoute(t, meta, p.quicId).Some? then None else Some(TableKey(meta, flow))
  }

  function DefOf(f: FlowKey): VipDef {
    VipDef(f.dst, f.dport, f.proto)
  }

  /** It is the key of the VIP that serves the packet. */
  lemma KeyIsServed(t: Tables, p: Packet, f: FlowKey)
    ensures KeyOf(t, p) == Some(f) <==> exists meta :: Served(t, p, meta, f)
  {
    if KeyOf(t, p) == Some(f) {
      assert Served(t, p, Resolve(t, p.flow).value.0, f);
    }
    if meta :| Served(t, p, meta, f) {
      assert Resolve(t, p.flow).value.0 == meta;
    }
  }

  /** VIPs whose flows stick: no bypass, no QUIC routing, no destination-port hashing. */
  predicate Sticky(meta: VipMeta) {
    meta.flags & 2 == 0 && meta.flags & 4 == 0 && meta.flags & 8 == 0
  }

  /** The flow's VIP is configured with these flags and number. */
  predicate Serves(t: Tables, f: FlowKey, meta: VipMeta) {
    DefOf(f) in t.kernel.vipMap && t.kernel.vipMap[DefOf(f)] == meta
  }

  /** A packet is resolved to the VIP of the key it ends up with. */
  lemma KeyDeterminesVip(t: Tables, p: Packet, f: FlowKey, meta: VipMeta)
    requires Serves(t, f, meta) && Resolve(t, p.flow).Some?
    requires TableKey(Resolve(t, p.flow).value.0, Resolve(t, p.flow).value.1) == f
          || HashedKey(Resolve(t, p.flow).value.0,
                       TableKey(Resolve(t, p.flow).value.0, Resolve(t, p.flow).value.1)) == f
    ensures Resolve(t, p.flow).value.0 == meta
  {
  }

  /** Only a packet with the key of a sticky flow touches the flow's entry. */
  lemma OthersLeaveEntry(e: Env, t: Tables, cpu: Cpu, p: Packet, now: Clock, f: FlowKey, meta: VipMeta)
    requires e.ringSize > 0 && Serves(t, f, meta) && Sticky(meta) && f in cpu.lru && KeyOf(t, p) != Some(f)
    ensures f in Process(e, t, cpu, p, now).cpu.lru && Process(e, t, cpu, p, now).cpu.lru[f] == cpu.lru[f]
  {
    if KeyOf(t, p).None? {
      Unlisted(e, t, cpu, p, now);
    } else {
      var key := KeyOf(t, p).value;
      KeyIsServed(t, p, key);
      var m :| Served(t, p, m, key);
      if RingKey(m, key) == f { SameVip(t, p, m, key, f, meta); }
      hide Process, KeyOf, Served, RingKey, Sticky, Serves;
      if Hit(e, cpu, p, m, key, now) {
        HitDecides(e, t, cpu, p, now, m, key);
      } else {
        StoredIff(e, t, cpu, p, now, m, key);
        var r := Process(e, t, cpu, p, now);
        assert f in cpu.lru - {key, RingKey(m, key)} && (cpu.lru - {key, RingKey(m, key)})[f] == cpu.lru[f];
        assert f in cpu.lru - {key, key} && (cpu.lru - {key, key})[f] == cpu.lru[f];
      }
    }
  }

  /** A packet that is not looked up leaves the table alone. */
  lemma Unlisted(e: Env, t: Tables, cpu: Cpu, p: Packet, now: Clock)
    requires e.ringSize > 0 && KeyOf(t, p).None?
    ensures Process(e, t, cpu, p, now).cpu == cpu
  {
    hide Balance;
  }

  /** What the ring of another VIP hashes is not the key of a sticky flow. */
  lemma SameVip(t: Tables, p: Packet, m: VipMeta, key: FlowKey, f: FlowKey, meta: VipMeta)
    requires Served(t, p, m, key) && RingKey(m, key) == f && Serves(t, f, meta) && Sticky(meta)
    ensures key == f
  {
  }

  /** A packet of a stored flow goes where the table says and keeps the entry. */
  lemma HitFollowsEntry(e: Env, t: Tables, cpu: Cpu, p: Packet, now: Clock, f: FlowKey, meta: VipMeta)
    requires e.ringSize > 0 && Serves(t, f, meta) && Sticky(meta) && KeyOf(t, p) == Some(f) && !p.syn
    requires Fresh(e, cpu, f, now.lookup) && cpu.lru[f].pos < e.maxReals
    ensures var r := Process(e, t, cpu, p, now);
      && r.verdict.Send? && r.verdict.num == cpu.lru[f].pos
      && r.cpu == Touch(e, cpu, f, now.lookup)
  {
  }

  /** What a miss stores is what it sends to. */
  lemma StoresWhatItSends(e: Env, t: Tables, cpu: Cpu, p: Packet, now: Clock, f: FlowKey, meta: VipMeta)
    requires e.ringSize > 0 && Serves(t, f, meta) && Sticky(meta) && KeyOf(t, p) == Some(f)
    requires Process(e, t, cpu, p, now).inserted
    ensures var r := Process(e, t, cpu, p, now);
      && r.verdict.Send? && r.verdict.num < e.maxReals && f in r.cpu.lru && r.cpu.lru[f].pos == r.verdict.num
      && (f.proto == IPPROTO_UDP ==> r.cpu.lru[f].atime == now.miss)
  {
  }

  // ---------------------------------------------------------------------
  // Affinity
  // ---------------------------------------------------------------------

  ghost predicate Touches(w: World, ev: Event, f: FlowKey) {
    ev.Arrive? && KeyOf(w.tables, ev.packet) == Some(f)
  }

  /** When the flow was last seen before event `i`, given when it was stored. */
  ghost function LastSeen(e: Env, w: World, evs: seq<Event>, f: FlowKey, stored: nat, i: nat): nat
    requires e.ringSize > 0 && i <= |evs|
  {
    if i == 0 then stored
    else if Touches(At(e, w, evs, i - 1), evs[i - 1], f) then evs[i - 1].now.lookup
    else LastSeen(e, w, evs, f, stored, i - 1)
  }

  /**
   Nothing in the run ends the flow: its VIP stays, its entry is not evicted, no SYN comes with
   its key, and for UDP the gaps between its packets stay within the timeout.
   */
  ghost predicate Undisturbed(e: Env, w: World, evs: seq<Event>, f: FlowKey, meta: VipMeta, stored: nat)
    requires e.ringSize > 0
  {
    forall i :: 0 <= i < |evs| ==>
      match evs[i]
      case Evict(keys) => f !in keys
      case Control(t) => Serves(t, f, meta)
      case Arrive(p, now) =>
        Touches(At(e, w, evs, i), evs[i], f) ==>
          && !p.syn
          && LastSeen(e, w, evs, f, stored, i) <= now.lookup
          && (f.proto == IPPROTO_UDP ==> now.lookup - LastSeen(e, w, evs, f, stored, i) <= e.udpTimeout)
  }

  ghost predicate Stored(e: Env, w: World, f: FlowKey, meta: VipMeta, n: nat, seen: nat) {
    && Serves(w.tables, f, meta) && Sticky(meta)
    && f in w.cpu.lru && w.cpu.lru[f].pos == n < e.maxReals
    && (f.proto == IPPROTO_UDP ==> w.cpu.lru[f].atime == seen)
  }

  lemma StepKeepsStored(e: Env, w: World, ev: Event, f: FlowKey, meta: VipMeta, n: nat, seen: nat)
    requires e.ringSize > 0 && Stored(e, w, f, meta, n, seen)
    requires ev.Evict? ==> f !in ev.keys
    requires ev.Control? ==> Serves(ev.tables, f, meta)
    requires Touches(w, ev, f) ==>
      && !ev.packet.syn && seen <= ev.now.lookup && (f.proto == IPPROTO_UDP ==> ev.now.lookup - seen <= e.udpTimeout)
    ensures Stored(e, Next(e, w, ev), f, meta, n, if Touches(w, ev, f) then ev.now.lookup else seen)
    ensures Touches(w, ev, f) ==>
      var v := Process(e, w.tables, w.cpu, ev.packet, ev.now).verdict; v.Send? && v.num == n
  {
    if ev.Arrive? {
      if Touches(w, ev, f) {
        HitFollowsEntry(e, w.tables, w.cpu, ev.packet, ev.now, f, meta);
      } else {
        OthersLeaveEntry(e, w.tables, w.cpu, ev.packet, ev.now, f, meta);
      }
      hide Process, KeyOf, Serves, Sticky;
    }
  }

  lemma {:induction false} EntryStays(e: Env, w: World, evs: seq<Event>, f: FlowKey, meta: VipMeta, n: nat,
                                      stored: nat, i: nat)
    requires e.ringSize > 0 && Stored(e, w, f, meta, n, stored) && Undisturbed(e, w, evs, f, meta, stored)
    requires i <= |evs|
    ensures Stored(e, At(e, w, evs, i), f, meta, n, LastSeen(e, w, evs, f, stored, i))
  {
    hide Stored, Touches, Next, Serves;
    if i > 0 {
      EntryStays(e, w, evs, f, meta, n, stored, i - 1);
      TouchesArrive(At(e, w, evs, i - 1), evs[i - 1], f);
      StepKeepsStored(e, At(e, w, evs, i - 1), evs[i - 1], f, meta, n, LastSeen(e, w, evs, f, stored, i - 1));
    }
  }

  lemma TouchesArrive(w: World, ev: Event, f: FlowKey)
    ensures Touches(w, ev, f) ==> ev.Arrive?
  {
  }

  /**
   Every later packet of a stored flow gets the same real number, whatever happens to the
   rings, the reals and the other flows in between.
   */
  lemma FlowAffinity(e: Env, w: World, evs: seq<Event>, f: FlowKey, meta: VipMeta, n: nat, stored: nat, i: nat)
    requires e.ringSize > 0 && Stored(e, w, f, meta, n, stored) && Undisturbed(e, w, evs, f, meta, stored)
    requires i < |evs| && Touches(At(e, w, evs, i), evs[i], f)
    ensures var s := At(e, w, evs, i);
      var v := Process(e, s.tables, s.cpu, evs[i].packet, evs[i].now).verdict;
      v.Send? && v.num == n
  {
    EntryStays(e, w, evs, f, meta, n, stored, i);
    StepKeepsStored(e, At(e, w, evs, i), evs[i], f, meta, n, LastSeen(e, w, evs, f, stored, i));
  }

  /** A sticky VIP that serves the packet serves its flow. */
  lemma ServedServes(t: Tables, p: Packet, f: FlowKey, meta: VipMeta)
    requires Served(t, p, meta, f) && Sticky(meta)
    ensures Serves(t, f, meta) && KeyOf(t, p) == Some(f)
  {
    KeyIsServed(t, p, f);
    hide KeyOf;
  }

  /**
   A connection: the packet that opens it, with or without SYN, TCP or UDP, on a sticky VIP, not
   known to the table, admitted by the limiter and sent, and all later packets of its flow go to
   the same real.
   */
  lemma ConnectionAffinity(e: Env, w: World, p: Packet, now: Clock, evs: seq<Event>, f: FlowKey, meta: VipMeta, i: nat)
    requires e.ringSize > 0 && Served(w.tables, p, meta, f) && Sticky(meta)
    requires !Hit(e, w.cpu, p, meta, f, now) && Admitted(e, w.cpu, now)
    requires Process(e, w.tables, w.cpu, p, now).verdict.Send?
    requires var w1 := Next(e, w, Arrive(p, now));
      && Undisturbed(e, w1, evs, f, meta, now.miss) && i < |evs| && Touches(At(e, w1, evs, i), evs[i], f)
    ensures var s := At(e, Next(e, w, Arrive(p, now)), evs, i);
      var first := Process(e, w.tables, w.cpu, p, now).verdict;
      var later := Process(e, s.tables, s.cpu, evs[i].packet, evs[i].now).verdict;
      first.Send? && later.Send? && later.num == first.num
  {
    StoredIff(e, w.tables, w.cpu, p, now, meta, f);
    ServedServes(w.tables, p, f, meta);
    StoresWhatItSends(e, w.tables, w.cpu, p, now, f, meta);
    hide Served, Hit, Admitted;
    hide Process, Serves, Sticky, KeyOf, Undisturbed, Touches;
    var n := Process(e, w.tables, w.cpu, p, now).verdict.num;
    FlowAffinity(e, Next(e, w, Arrive(p, now)), evs, f, meta, n, now.miss, i);
  }

  // ---------------------------------------------------------------------
  // What the VIP flags promise
  // ---------------------------------------------------------------------

  /** With F_HASH_NO_SRC_PORT a client's source port makes no difference to anything. */
  lemma SourcePortIgnored(e: Env, t: Tables, cpu: Cpu, p: Packet, now: Clock, sport: nat)
    requires e.ringSize > 0 && Resolve(t, p.flow).Some? && Has(Resolve(t, p.flow).value.0.flags, F_HASH_NO_SRC_PORT)
    ensures Process(e, t, cpu, p.(flow := p.flow.(sport := sport)), now) == Process(e, t, cpu, p, now)
  {
    hide Has, GetDst, Touch, Lookup, QuicRoute;
  }

  /** On a VIP without port, two destination ports without VIPs of their own make no difference. */
  lemma DestinationPortIgnored(e: Env, t: Tables, cpu: Cpu, p: Packet, now: Clock, dport: nat)
    requires e.ringSize > 0
    requires VipDef(p.flow.dst, p.flow.dport, p.flow.proto) !in t.kernel.vipMap
    requires VipDef(p.flow.dst, dport, p.flow.proto) !in t.kernel.vipMap
    requires var any := VipDef(p.flow.dst, 0, p.flow.proto);
      any in t.kernel.vipMap ==> !Has(t.kernel.vipMap[any].flags, F_HASH_DPORT_ONLY)
    ensures Process(e, t, cpu, p.(flow := p.flow.(dport := dport)), now) == Process(e, t, cpu, p, now)
  {
    hide Has, GetDst, Touch, Lookup, QuicRoute;
  }

  /** With F_HASH_DPORT_ONLY the ring sends every source of a destination port to the same real. */
  lemma SourceIgnoredByRing(e: Env, t: Tables, cpu: Cpu, cpu': Cpu, flow: FlowKey, flow': FlowKey, meta: VipMeta,
                            isIpv6: bool, now: nat, now': nat)
    requires e.ringSize > 0 && Has(meta.flags, F_HASH_DPORT_ONLY) && !Has(meta.flags, F_SRC_ROUTING)
    requires flow'.dst == flow.dst && flow'.dport == flow.dport && flow'.proto == flow.proto
    ensures GetDst(e, t, cpu', flow', meta, isIpv6, now').dst == GetDst(e, t, cpu, flow, meta, isIpv6, now).dst
  {
    assert HashedKey(meta, flow') == HashedKey(meta, flow);
    hide Has, RingNumber, UnderFlood, Count;
  }

  // ---------------------------------------------------------------------
  // The rate limiter
  // ---------------------------------------------------------------------

  ghost predicate Ticking(evs: seq<Event>) {
    forall i, j :: 0 <= i <= j < |evs| && evs[i].Arrive? && evs[j].Arrive? ==> evs[i].now.miss <= evs[j].now.miss
  }

  ghost predicate Inserts(e: Env, w: World, evs: seq<Event>, i: nat)
    requires e.ringSize > 0 && i < |evs|
  {
    var s := At(e, w, evs, i);
    evs[i].Arrive? && Process(e, s.tables, s.cpu, evs[i].packet, evs[i].now).inserted
  }

  /** Entries written to the connection table by the first `i` events, in the window `[from, from + ONE_SEC]`. */
  ghost function InsertsIn(e: Env, w: World, evs: seq<Event>, from: nat, i: nat): nat
    requires e.ringSize > 0 && i <= |evs|
  {
    if i == 0 then 0 else
      InsertsIn(e, w, evs, from, i - 1)
        + if Inserts(e, w, evs, i - 1) && from <= evs[i - 1].now.miss <= from + ONE_SEC then 1 else 0
  }

  /** How one event may change the limiter. */
  ghost predicate LimiterStep(e: Env, c: Cpu, c': Cpu, ev: Event, inserted: bool) {
    || (!inserted && c'.conns == c.conns && c'.quantum == c.quantum)
    || (ev.Arrive? && NewQuantum(c, ev.now.miss) && c'.conns == 1 && c'.quantum == ev.now.miss)
    || (ev.Arrive? && !NewQuantum(c, ev.now.miss) && c'.conns == c.conns + 1 && c'.quantum == c.quantum
        && (inserted ==> c'.conns <= e.maxConnRate))
  }

  lemma EventLimiter(e: Env, w: World, ev: Event)
    requires e.ringSize > 0
    ensures LimiterStep(e, w.cpu, Next(e, w, ev).cpu, ev,
                        ev.Arrive? && Process(e, w.tables, w.cpu, ev.packet, ev.now).inserted)
  {
    hide Has, RuleFor, RingNumber, HashedKey, Fresh, SubU64, Resolve, QuicRoute, TableKey;
  }

  /** Two quanta start more than one second apart. */
  lemma QuantaApart(e: Env, w: World, ev: Event)
    requires e.ringSize > 0 && Next(e, w, ev).cpu.quantum != w.cpu.quantum
    requires ev.Arrive? ==> w.cpu.quantum <= ev.now.miss
    ensures Next(e, w, ev).cpu.quantum > w.cpu.quantum + ONE_SEC
  {
    EventLimiter(e, w, ev);
    hide Next, Process;
  }

  /**
   Split of a window's inserts: those of the quantum running when the window's last quantum
   started, at most a full quantum's worth, and those of the current quantum, at most its count.
   */
  ghost predicate WindowBound(e: Env, c: Cpu, from: nat, count: nat) {
    if c.quantum >= from then count <= e.maxConnRate + MinNat(c.conns, e.maxConnRate)
    else count <= MinNat(c.conns, e.maxConnRate)
  }

  function MinNat(a: nat, b: nat): nat {
    if a <= b then a else b
  }

  ghost predicate Aligned(e: Env, w: World, evs: seq<Event>, i: nat)
    requires e.ringSize > 0 && i <= |evs|
  {
    forall j :: i <= j < |evs| && evs[j].Arrive? ==> At(e, w, evs, i).cpu.quantum <= evs[j].now.miss
  }

  lemma BoundStep(e: Env, c: Cpu, c': Cpu, ev: Event, inserted: bool, from: nat, count: nat)
    requires LimiterStep(e, c, c', ev, inserted) && WindowBound(e, c, from, count) && e.maxConnRate >= 1
    requires ev.Arrive? ==> c.quantum <= ev.now.miss
    requires inserted ==> ev.Arrive?
    requires count > 0 && ev.Arrive? ==> from <= ev.now.miss
    ensures inserted && from <= ev.now.miss <= from + ONE_SEC ==> WindowBound(e, c', from, count + 1)
    ensures !(inserted && from <= ev.now.miss <= from + ONE_SEC) && (ev.Arrive? ==> ev.now.miss <= from + ONE_SEC) ==>
              WindowBound(e, c', from, count)
  {
  }

  /** Once something was counted, the window has begun. */
  lemma {:induction false} WindowBegun(e: Env, w: World, evs: seq<Event>, from: nat, i: nat)
    requires e.ringSize > 0 && Ticking(evs) && i < |evs| && evs[i].Arrive? && InsertsIn(e, w, evs, from, i) > 0
    ensures from <= evs[i].now.miss
  {
    var k := i;
    while !(Inserts(e, w, evs, k - 1) && from <= evs[k - 1].now.miss <= from + ONE_SEC)
      invariant 0 < k <= i && InsertsIn(e, w, evs, from, k) > 0
      decreases k
    {
      k := k - 1;
    }
    InsertArrives(e, w, evs, k - 1);
  }

  /** After the window has passed nothing is counted any more. */
  lemma {:induction false} AfterWindow(e: Env, w: World, evs: seq<Event>, from: nat, k: nat, i: nat)
    requires e.ringSize > 0 && Ticking(evs) && k <= i <= |evs|
    requires k < |evs| && evs[k].Arrive? && evs[k].now.miss > from + ONE_SEC
    ensures InsertsIn(e, w, evs, from, i) == InsertsIn(e, w, evs, from, k)
  {
    hide Inserts, At;
    if i > k {
      AfterWindow(e, w, evs, from, k, i - 1);
      InsertArrives(e, w, evs, i - 1);
    }
  }

  lemma InsertArrives(e: Env, w: World, evs: seq<Event>, i: nat)
    requires e.ringSize > 0 && i < |evs|
    ensures Inserts(e, w, evs, i) ==> evs[i].Arrive?
  {
  }

  /** The events before `i` all lie before the end of the window. */
  ghost predicate WithinWindow(evs: seq<Event>, from: nat, i: nat)
    requires i <= |evs|
  {
    forall j :: 0 <= j < i && evs[j].Arrive? ==> evs[j].now.miss <= from + ONE_SEC
  }

  lemma {:induction false} WindowInvariant(e: Env, w: World, evs: seq<Event>, from: nat, i: nat)
    requires e.ringSize > 0 && e.maxConnRate >= 1 && Ticking(evs) && Aligned(e, w, evs, 0)
    requires i <= |evs| && WithinWindow(evs, from, i)
    ensures WindowBound(e, At(e, w, evs, i).cpu, from, InsertsIn(e, w, evs, from, i))
    ensures Aligned(e, w, evs, i)
  {
    hide Next, Process;
    if i > 0 {
      WindowInvariant(e, w, evs, from, i - 1);
      var s := At(e, w, evs, i - 1);
      EventLimiter(e, s, evs[i - 1]);
      hide NewQuantum;
      if evs[i - 1].Arrive? && InsertsIn(e, w, evs, from, i - 1) > 0 {
        WindowBegun(e, w, evs, from, i - 1);
      }
      BoundStep(e, s.cpu, At(e, w, evs, i).cpu, evs[i - 1], Inserts(e, w, evs, i - 1), from,
                InsertsIn(e, w, evs, from, i - 1));
    }
  }

  /** In any second the connection table gets at most two quanta's worth of new entries. */
  lemma {:induction false} InsertRate(e: Env, w: World, evs: seq<Event>, from: nat, i: nat)
    requires e.ringSize > 0 && e.maxConnRate >= 1 && Ticking(evs) && Aligned(e, w, evs, 0) && i <= |evs|
    ensures InsertsIn(e, w, evs, from, i) <= 2 * e.maxConnRate
  {
    if WithinWindow(evs, from, i) {
      WindowInvariant(e, w, evs, from, i);
    } else {
      var k: nat :| k < i && evs[k].Arrive? && evs[k].now.miss > from + ONE_SEC;
      InsertRate(e, w, evs, from, k);
      AfterWindow(e, w, evs, from, k, i);
    }
  }
}
