/**
 The load balancer's program from frame to frame (balancer_ingress and process_packet of
 balancer_kern.c), and what the chosen real finally gets.
 */
module Ingress {
  import opened Residues
  import opened Bytes
  import opened Frames
  import opened Checksum
  import opened Headers
  import opened Encap
  import opened Parsing
  import DP = DataPlane
  import A = Allocator
  import Prefixes
  import C = ControlPlane
  import Runs
  import F = Forwarding
  import V = Vips
  import E = EndToEnd

  // ---------------------------------------------------------------------
  // Fields as bytes
  // ---------------------------------------------------------------------

  function PutWord(w: nat): (b: seq<byte>)
    ensures |b| == 4
  {
    PutBe16(w % U32 / U16) + PutBe16(w % U16)
  }

  lemma PutWordReads(w: nat)
    ensures Word(PutWord(w), 0) == w % U32
  {
    var high, low := PutBe16(w % U32 / U16), PutBe16(w % U16);
    var b := PutWord(w);
    BeAt(b, 0, high, 0);
    assert b[2..4] == low[0..2];
    BeAt(b, 2, low, 0);
    LowHalf(w);
  }

  lemma LowHalf(w: nat)
    ensures w % U16 == w % U32 % U16
  {
  }

  function FourWords(w0: nat, w1: nat, w2: nat, w3: nat): Ipv6Bytes {
    PutWord(w0) + PutWord(w1) + PutWord(w2) + PutWord(w3)
  }

  lemma FourWordsRead(w0: nat, w1: nat, w2: nat, w3: nat)
    ensures Address(FourWords(w0, w1, w2, w3), 0, true) == [w0 % U32, w1 % U32, w2 % U32, w3 % U32]
  {
    hide PutWord;
    var b := FourWords(w0, w1, w2, w3);
    PutWordReads(w0);
    PutWordReads(w1);
    PutWordReads(w2);
    PutWordReads(w3);
    assert b[0..4] == PutWord(w0)[0..4] && b[4..8] == PutWord(w1)[0..4];
    assert b[8..12] == PutWord(w2)[0..4] && b[12..16] == PutWord(w3)[0..4];
    SameWord(b, 0, PutWord(w0), 0, 4, 0);
    SameWord(b, 4, PutWord(w1), 0, 4, 0);
    SameWord(b, 8, PutWord(w2), 0, 4, 0);
    SameWord(b, 12, PutWord(w3), 0, 4, 0);
  }

  /** What the decision left in the description, for the outer header. */
  function DescriptionOf(flow: DP.FlowKey, d: Parsed): (r: Description)
    requires |flow.src| == 4
    ensures Described(r)
  {
    Description(FourWords(flow.src[0], flow.src[1], flow.src[2], flow.src[3]), PutBe16(flow.sport % U16), d.tos,
      d.pktBytes)
  }

  // ---------------------------------------------------------------------
  // The frame sent to a real
  // ---------------------------------------------------------------------

  function HeaderTo(addr: A.Addr): nat {
    if addr.V4? then IPV4_HDR_LEN else IPV6_HDR_LEN
  }

  function Forwarded(b: seq<byte>, mac: Mac, isIpv6: bool, d: Description, addr: A.Addr, id: seq<byte>): seq<byte>
    requires |b| >= ETH_HLEN && Described(d) && |id| == 2
  {
    match addr
    case V4(w) => Encapsulated4(b, mac, d, PutWord(w), id)
    case V6(w0, w1, w2, w3) => Encapsulated6(b, mac, d, isIpv6, FourWords(w0, w1, w2, w3))
  }

  /** Type the real's decapsulation gives the inner packet. */
  function DeliveredType(isIpv6: bool, addr: A.Addr): (kind: seq<byte>)
    ensures |kind| == 2
  {
    if isIpv6 && addr.V6? then ETH_P_IPV6 else ETH_P_IP
  }

  /** The destination of the outer header, as read from the frame. */
  ghost function OuterDestination(frame: seq<byte>, addr: A.Addr): seq<nat>
    requires |frame| >= ETH_HLEN + HeaderTo(addr)
  {
    if addr.V4? then Address(frame, 30, false) else Address(frame, 38, true)
  }

  function Truncated(words: seq<nat>): seq<nat> {
    seq(|words|, i requires 0 <= i < |words| => words[i] % U32)
  }

  lemma OuterDestination4(b: seq<byte>, mac: Mac, d: Description, w: nat, id: seq<byte>)
    requires |b| >= ETH_HLEN && Described(d) && |id| == 2
    ensures Address(Encapsulated4(b, mac, d, PutWord(w), id), 30, false) == [w % U32, 0, 0, 0]
  {
    var h := V4Bytes(OuterV4(d, PutWord(w), id));
    V4Fields(OuterV4(d, PutWord(w), id));
    hide V4Bytes, PutWord, OuterSource4, Word;
    var e := Encapsulated4(b, mac, d, PutWord(w), id);
    Decap.Layers(mac + b[0..6], ETH_P_IP, h, b[14..], ETH_P_IP);
    PutWordReads(w);
    InnerSlice(e, 14, h, 16, 20);
    assert PutWord(w)[0..4] == PutWord(w);
    SameAddress(e, 30, PutWord(w), 0, false);
  }

  lemma OuterDestination6(b: seq<byte>, mac: Mac, d: Description, isIpv6: bool, w0: nat, w1: nat, w2: nat, w3: nat)
    requires |b| >= ETH_HLEN && Described(d)
    ensures Address(Encapsulated6(b, mac, d, isIpv6, FourWords(w0, w1, w2, w3)), 38, true)
         == [w0 % U32, w1 % U32, w2 % U32, w3 % U32]
  {
    var dst := FourWords(w0, w1, w2, w3);
    var h := V6Bytes(OuterV6(d, isIpv6, dst));
    V6Fields(OuterV6(d, isIpv6, dst));
    FourWordsRead(w0, w1, w2, w3);
    hide V6Bytes, OuterSource6, FourWords, Word;
    var e := Encapsulated6(b, mac, d, isIpv6, dst);
    Decap.Layers(mac + b[0..6], ETH_P_IPV6, h, b[14..], ETH_P_IPV6);
    InnerSlice(e, 14, h, 24, 40);
    assert dst[0..16] == dst;
    SameAddress(e, 38, dst, 0, true);
  }

  lemma InnerSlice(e: seq<byte>, o: nat, h: seq<byte>, i: nat, j: nat)
    requires o + |h| <= |e| && e[o..o + |h|] == h && i <= j <= |h|
    ensures e[o + i..o + j] == h[i..j]
  {
    assert forall k :: i <= k < j ==> h[k] == e[o + k];
  }

  /** The frame is addressed to the real, and the real's decapsulation gives back the client's packet. */
  lemma ForwardedArrives(b: seq<byte>, mac: Mac, isIpv6: bool, d: Description, addr: A.Addr, id: seq<byte>)
    requires |b| >= ETH_HLEN && Described(d) && |id| == 2
    ensures |Forwarded(b, mac, isIpv6, d, addr, id)| == |b| + HeaderTo(addr)
    ensures OuterDestination(Forwarded(b, mac, isIpv6, d, addr, id), addr) == Truncated(Prefixes.Words(addr))
    ensures Decap.Decapsulate(Forwarded(b, mac, isIpv6, d, addr, id))
         == (Pass, Decap.Delivered(b, mac, DeliveredType(isIpv6, addr)))
  {
    hide Decap.Decapsulate, Decap.Delivered, Encapsulated4, Encapsulated6, FourWords, PutWord, Address;
    match addr
    case V4(w) =>
      OuterDestination4(b, mac, d, w, id);
      Decap.DecapUndoesEncap4(b, mac, d, PutWord(w), id);
      assert Truncated([w, 0, 0, 0]) == [w % U32, 0, 0, 0];
    case V6(w0, w1, w2, w3) =>
      OuterDestination6(b, mac, d, isIpv6, w0, w1, w2, w3);
      Decap.DecapUndoesEncap6(b, mac, d, isIpv6, FourWords(w0, w1, w2, w3));
      assert Truncated([w0, w1, w2, w3]) == [w0 % U32, w1 % U32, w2 % U32, w3 % U32];
  }

  /**
   An IP frame comes out of the tunnel with its own Ethernet type if and only if it is not an
   IPv6 packet sent to an IPv4 real.
   */
  lemma TypeRestoredIff(b: seq<byte>, mac: Mac, isIpv6: bool, d: Description, addr: A.Addr, id: seq<byte>)
    requires |b| >= ETH_HLEN && Described(d) && |id| == 2
    requires b[12..14] == if isIpv6 then ETH_P_IPV6 else ETH_P_IP
    ensures var r := Decap.Decapsulate(Forwarded(b, mac, isIpv6, d, addr, id)).1;
      r[14..] == b[14..] && (r[12..] == b[12..] <==> !(isIpv6 && addr.V4?))
  {
    ForwardedArrives(b, mac, isIpv6, d, addr, id);
    hide Decap.Decapsulate, Forwarded, Decap.Delivered;
    Decap.DeliveredBytes(b, mac, DeliveredType(isIpv6, addr));
  }

  // ---------------------------------------------------------------------
  // The program
  // ---------------------------------------------------------------------

  datatype Outcome = Outcome(action: Action, frame: seq<byte>, cpu: DP.Cpu)

  lemma FinalFlowHasAddress(e: DP.Env, t: DP.Tables, cpu: DP.Cpu, p: DP.Packet, now: DP.Clock)
    requires e.ringSize > 0 && |p.flow.src| == 4
    ensures |DP.FinalFlow(e, t, cpu, p, now).src| == 4
  {
  }

  lemma ParsedHasAddress(b: seq<byte>, isIpv6: bool)
    requires ParseAction(b, isIpv6) == Further
    ensures |Parse(b, isIpv6).flow.src| == 4 && |b| >= ETH_HLEN
  {
  }

  /** What becomes of an IP frame with the given room before it. */
  ghost function Processed(e: DP.Env, t: DP.Tables, cpu: DP.Cpu, b: seq<byte>, room: seq<byte>, mac: Mac, isIpv6: bool,
                           quicId: int, now: DP.Clock): Outcome
    requires e.ringSize > 0
  {
    if ParseAction(b, isIpv6) != Further then Outcome(ParseAction(b, isIpv6), Answered(b, isIpv6), cpu)
    else
      var p := PacketOf(b, isIpv6, quicId);
      var r := DP.Process(e, t, cpu, p, now);
      match r.verdict
      case Pass => Outcome(Pass, b, r.cpu)
      case Drop => Outcome(Drop, b, r.cpu)
      case Send(_, addr) =>
        if |room| < HeaderTo(addr) then Outcome(Drop, b, r.cpu)
        else Outcome(Transmit, Sent(e, t, cpu, b, room, mac, isIpv6, quicId, now, addr), r.cpu)
  }

  ghost function Sent(e: DP.Env, t: DP.Tables, cpu: DP.Cpu, b: seq<byte>, room: seq<byte>, mac: Mac, isIpv6: bool,
                      quicId: int, now: DP.Clock, addr: A.Addr): seq<byte>
    requires e.ringSize > 0 && ParseAction(b, isIpv6) == Further && |room| >= HeaderTo(addr)
  {
    var p := PacketOf(b, isIpv6, quicId);
    ParsedHasAddress(b, isIpv6);
    FinalFlowHasAddress(e, t, cpu, p, now);
    Forwarded(b, mac, isIpv6, DescriptionOf(DP.FinalFlow(e, t, cpu, p, now), Parse(b, isIpv6)), addr,
      room[|room| - 2..])
  }

  /** Puts the outer header for the real in front. */
  method Encapsulate(f: Frame, mac: Mac, isIpv6: bool, d: Description, addr: A.Addr) returns (action: Action)
    requires f.Valid() && f.end - f.head >= ETH_HLEN && Described(d)
    modifies f`head, f.buf
    ensures f.Valid() && action == if |old(f.Room())| >= HeaderTo(addr) then Transmit else Drop
    ensures action == Transmit ==>
      f.Bytes() == Forwarded(old(f.Bytes()), mac, isIpv6, d, addr, old(f.Room())[|old(f.Room())| - 2..])
  {
    hide Encapsulated4, Encapsulated6, FourWords, PutWord;
    var ok;
    match addr {
      case V6(w0, w1, w2, w3) => ok := EncapV6(f, mac, isIpv6, d, FourWords(w0, w1, w2, w3));
      case V4(w) => ok := EncapV4(f, mac, d, PutWord(w));
    }
    action := if ok then Transmit else Drop;
  }

  method ProcessPacket(f: Frame, balancer: DP.Balancer, t: DP.Tables, mac: Mac, quicOf: seq<byte> -> int, now: DP.Clock,
      isIpv6: bool)
    returns (action: Action)
    requires f.Valid() && f.end - f.head >= ETH_HLEN && balancer.env.ringSize > 0
    modifies balancer, f`head, f.buf
    ensures f.Valid()
    ensures
      var b := old(f.Bytes());
      var r := Processed(balancer.env, t, old(balancer.State()), b, old(f.Room()), mac, isIpv6, quicOf(b), now);
      action == r.action && balancer.State() == r.cpu && (action != Drop ==> f.Bytes() == r.frame)
  {
    hide ParseAction, Parse, Answered, Processed, DP.Process;
    var pckt := new PacketDescription();
    action := ParsePacket(f, pckt, isIpv6);
    if action != Further {
      ghost var frame := old(f.Bytes());
      ProcessedStopped(balancer.env, t, old(balancer.State()), frame, old(f.Room()), mac, isIpv6, quicOf(frame), now);
      return;
    }
    ParsedUnanswered(old(f.Bytes()), isIpv6);
    var b := f.Get(0, f.end - f.head);
    assert b == f.Bytes();
    var d := Parsed(pckt.flow, pckt.icmp, pckt.syn, pckt.tos, pckt.pktBytes);
    action := Deliver(f, balancer, t, mac, now, isIpv6, d, b, quicOf(b));
  }

  /** A frame whose flow is known. */
  method Deliver(f: Frame, balancer: DP.Balancer, t: DP.Tables, mac: Mac, now: DP.Clock, isIpv6: bool, d: Parsed,
      b: seq<byte>, quicId: int)
    returns (action: Action)
    requires f.Valid() && balancer.env.ringSize > 0
    requires b == f.Bytes() && ParseAction(b, isIpv6) == Further && d == Parse(b, isIpv6)
    modifies balancer, f`head, f.buf
    ensures f.Valid()
    ensures
      var r := Processed(balancer.env, t, old(balancer.State()), b, old(f.Room()), mac, isIpv6, quicId, now);
      action == r.action && balancer.State() == r.cpu && (action != Drop ==> f.Bytes() == r.frame)
  {
    hide ParseAction, Parse, Answered, DP.Process, DP.FinalFlow, Forwarded, Processed, Sent;
    ghost var cpu, room := balancer.State(), f.Room();
    var p := DP.Packet(d.flow, d.syn, isIpv6, |b|, quicId);
    ParsedHasAddress(b, isIpv6);
    FinalFlowHasAddress(balancer.env, t, cpu, p, now);
    ProcessedKnown(balancer.env, t, cpu, b, room, mac, isIpv6, quicId, now);
    hide DescriptionOf;
    var verdict, _, flow := balancer.ProcessPacket(t, p, now);
    match verdict {
      case Pass => action := Pass;
      case Drop => action := Drop;
      case Send(_, addr) => action := Encapsulate(f, mac, isIpv6, DescriptionOf(flow, d), addr);
    }
  }

  /** The outcome for a frame whose flow is known, by verdict. */
  lemma ProcessedKnown(e: DP.Env, t: DP.Tables, cpu: DP.Cpu, b: seq<byte>, room: seq<byte>, mac: Mac, isIpv6: bool,
                       quicId: int, now: DP.Clock)
    requires e.ringSize > 0 && ParseAction(b, isIpv6) == Further
    ensures |b| >= ETH_HLEN && |DP.FinalFlow(e, t, cpu, PacketOf(b, isIpv6, quicId), now).src| == 4
    ensures
      var p := PacketOf(b, isIpv6, quicId);
      var r := DP.Process(e, t, cpu, p, now);
      var d := DescriptionOf(DP.FinalFlow(e, t, cpu, p, now), Parse(b, isIpv6));
      var result := Processed(e, t, cpu, b, room, mac, isIpv6, quicId, now);
      && result.cpu == r.cpu
      && (r.verdict.Pass? ==> result.action == Pass && result.frame == b)
      && (r.verdict.Drop? ==> result.action == Drop)
      && (r.verdict.Send? && |room| < HeaderTo(r.verdict.addr) ==> result.action == Drop)
      && (r.verdict.Send? && |room| >= HeaderTo(r.verdict.addr) ==>
          result.action == Transmit && result.frame == Forwarded(b, mac, isIpv6, d, r.verdict.addr, room[|room| - 2..]))
  {
    ParsedHasAddress(b, isIpv6);
    hide ParseAction, Parse, Answered, DP.Process, DP.FinalFlow, Forwarded, DescriptionOf;
    FinalFlowHasAddress(e, t, cpu, PacketOf(b, isIpv6, quicId), now);
  }

  lemma ProcessedStopped(e: DP.Env, t: DP.Tables, cpu: DP.Cpu, b: seq<byte>, room: seq<byte>, mac: Mac, isIpv6: bool,
                         quicId: int, now: DP.Clock)
    requires e.ringSize > 0 && ParseAction(b, isIpv6) != Further
    ensures Processed(e, t, cpu, b, room, mac, isIpv6, quicId, now) ==
      Outcome(ParseAction(b, isIpv6), Answered(b, isIpv6), cpu)
  {
  }

  lemma ParsedUnanswered(b: seq<byte>, isIpv6: bool)
    requires ParseAction(b, isIpv6) == Further
    ensures Answered(b, isIpv6) == b
  {
  }

  method BalancerIngress(f: Frame, balancer: DP.Balancer, t: DP.Tables, mac: Mac, quicOf: seq<byte> -> int,
      now: DP.Clock)
    returns (action: Action)
    requires f.Valid() && balancer.env.ringSize > 0
    modifies balancer, f`head, f.buf
    ensures f.Valid()
    ensures
      var b := old(f.Bytes());
      if |b| < ETH_HLEN then action == Drop && balancer.State() == old(balancer.State())
      else if b[12..14] != ETH_P_IP && b[12..14] != ETH_P_IPV6 then
        action == Pass && f.Bytes() == b && balancer.State() == old(balancer.State())
      else
        var isIpv6 := b[12..14] == ETH_P_IPV6;
        var r := Processed(balancer.env, t, old(balancer.State()), b, old(f.Room()), mac, isIpv6, quicOf(b), now);
        action == r.action && balancer.State() == r.cpu && (action != Drop ==> f.Bytes() == r.frame)
  {
    hide Processed;
    if ETH_HLEN > f.end - f.head {
      return Drop;
    }
    var kind := f.Get(12, 2);
    if kind == ETH_P_IP {
      action := ProcessPacket(f, balancer, t, mac, quicOf, now, false);
    } else if kind == ETH_P_IPV6 {
      action := ProcessPacket(f, balancer, t, mac, quicOf, now, true);
    } else {
      action := Pass;
    }
  }

  /**
   After any control-plane calls without repeated deletions, a client's frame that the ring
   decides leaves in a frame addressed to a real configured with nonzero weight on its own VIP,
   and decapsulation there returns the client's IP packet unchanged.
   */
  lemma FrameReachesConfiguredReal(c: C.Config, ops: seq<C.Op>, ss: seq<C.Lb>, i: nat, e: DP.Env, cpu: DP.Cpu,
                                   b: seq<byte>, room: seq<byte>, mac: Mac, isIpv6: bool, quicId: int, now: DP.Clock,
                                   meta: C.VipMeta, key: DP.FlowKey)
    returns (k: A.VipKey, addr: A.Addr)
    requires C.ConfigOk(c) && Runs.Calls(c, ops, ss) && Runs.NoRepeats(c, ops) && i < |ss|
    requires E.Built(e, c) && |room| >= IPV6_HDR_LEN
    requires ParseAction(b, isIpv6) == Further
    requires E.RingDecides(e, E.TablesOf(ss[i]), cpu, PacketOf(b, isIpv6, quicId), now, meta, key)
    ensures k in ss[i].vips && meta == C.MetaFor(ss[i].vips[k])
    ensures E.Addressed(c, k, PacketOf(b, isIpv6, quicId).flow)
    ensures V.HasActive(ss[i].vips[k].reals) ==>
      var r := Processed(e, E.TablesOf(ss[i]), cpu, b, room, mac, isIpv6, quicId, now);
      && (exists w :: (addr, w) in F.Configured(ss[i], k))
      && r.action == Transmit && |r.frame| == |b| + HeaderTo(addr)
      && OuterDestination(r.frame, addr) == Truncated(Prefixes.Words(addr))
      && Decap.Decapsulate(r.frame) == (Pass, Decap.Delivered(b, mac, DeliveredType(isIpv6, addr)))
  {
    hide Parse, ParseAction, DP.Process, DP.FinalFlow, Forwarded, Decap.Decapsulate, Decap.Delivered, OuterDestination;
    hide DescriptionOf, E.RingDecides, Runs.Calls, Runs.NoRepeats, F.Configured, Processed, PacketOf, V.HasActive;
    hide E.Addressed, Prefixes.Words;
    var p, t := PacketOf(b, isIpv6, quicId), E.TablesOf(ss[i]);
    k := E.PacketReachesConfiguredReal(c, ops, ss, i, e, cpu, p, now, meta, key);
    addr := A.V4(0);
    if V.HasActive(ss[i].vips[k].reals) {
      var v := DP.Process(e, t, cpu, p, now).verdict;
      addr := v.addr;
      assert (addr, ss[i].vips[k].reals[v.num].weight) in F.Configured(ss[i], k);
      ProcessedKnown(e, t, cpu, b, room, mac, isIpv6, quicId, now);
      var d := DescriptionOf(DP.FinalFlow(e, t, cpu, p, now), Parse(b, isIpv6));
      ForwardedArrives(b, mac, isIpv6, d, addr, room[|room| - 2..]);
    }
  }
}
