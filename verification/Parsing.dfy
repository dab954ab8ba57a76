/**
 From bytes to a flow (handle_icmp.h, pckt_parsing.h and the header parsing of balancer_kern.c).
 An ICMP error is described by the flow of the client packets it is about.
 */
module Parsing {
  import opened Bytes
  import opened Frames
  import opened Checksum
  import opened Headers
  import opened EchoReply
  import Decap
  import DataPlane

  const IPPROTO_ICMP: byte := 1
  const TCP: byte := 6
  const UDP: byte := 17
  const ICMP_DEST_UNREACH: byte := 3
  const ICMPV6_DEST_UNREACH: byte := 1
  const ICMPV6_PKT_TOOBIG: byte := 2
  const TCP_HDR_LEN: nat := 20
  const UDP_HDR_LEN: nat := 8

  /** 32-bit word in network order. */
  function Word(b: seq<byte>, o: nat): nat
    requires o + 4 <= |b|
  {
    U16 * Be16(b, o) + Be16(b, o + 2)
  }

  /** The four words of an address field of the packet. */
  function Address(b: seq<byte>, o: nat, isIpv6: bool): seq<nat>
    requires o + (if isIpv6 then 16 else 4) <= |b|
  {
    if isIpv6 then [Word(b, o), Word(b, o + 4), Word(b, o + 8), Word(b, o + 12)] else [Word(b, o), 0, 0, 0]
  }

  datatype Parsed = Parsed(flow: DataPlane.FlowKey, icmp: bool, syn: bool, tos: byte, pktBytes: u16)

  const EMPTY: Parsed := Parsed(DataPlane.FlowKey([0, 0, 0, 0], [0, 0, 0, 0], 0, 0, 0), false, false, 0, 0)

  // ---------------------------------------------------------------------
  // ICMP
  // ---------------------------------------------------------------------

  /** Transmit stands for an echo request, which is answered on the spot. */
  function IcmpAction(b: seq<byte>): Action {
    if |b| < 42 then Drop
    else if b[34] == ICMP_ECHO then Transmit
    else if b[34] != ICMP_DEST_UNREACH then Pass
    else if |b| < 62 || b[42] % 16 != 5 then Drop
    else Further
  }

  function Icmp6Action(b: seq<byte>): Action {
    if |b| < 62 then Drop
    else if b[54] == ICMPV6_ECHO_REQUEST then Transmit
    else if b[54] != ICMPV6_PKT_TOOBIG && b[54] != ICMPV6_DEST_UNREACH then Pass
    else if |b| < 102 then Drop
    else Further
  }

  /** The quoted header starts here. */
  function QuoteAt(isIpv6: bool): nat {
    if isIpv6 then 62 else 42
  }

  /** Source and destination of the quoted packet, exchanged. */
  function Quoted(b: seq<byte>, isIpv6: bool, d: Parsed): Parsed
    requires |b| >= if isIpv6 then 102 else 62
  {
    var q := QuoteAt(isIpv6);
    if isIpv6 then
      d.(icmp := true,
         flow := d.flow.(proto := b[q + 6], src := Address(b, q + 24, true), dst := Address(b, q + 8, true)))
    else
      d.(icmp := true,
         flow := d.flow.(proto := b[q + 9], src := Address(b, q + 16, false), dst := Address(b, q + 12, false)))
  }

  // ---------------------------------------------------------------------
  // Network header
  // ---------------------------------------------------------------------

  function L3Action(b: seq<byte>, isIpv6: bool): Action {
    if !Decap.Parses(b, isIpv6) then Drop
    else if isIpv6 && b[20] == IPPROTO_ICMPV6 then Icmp6Action(b)
    else if !isIpv6 && b[23] == IPPROTO_ICMP then IcmpAction(b)
    else Further
  }

  function L3(b: seq<byte>, isIpv6: bool): Parsed
    requires L3Action(b, isIpv6) == Further
  {
    if isIpv6 then
      var d := EMPTY.(tos := TrafficClass(b[14..]), pktBytes := Be16(b, 18));
      if b[20] == IPPROTO_ICMPV6 then Quoted(b, true, d)
      else d.(flow := d.flow.(proto := b[20], src := Address(b, 22, true), dst := Address(b, 38, true)))
    else
      var d := EMPTY.(tos := b[15], pktBytes := Be16(b, 16));
      if b[23] == IPPROTO_ICMP then Quoted(b, false, d)
      else d.(flow := d.flow.(proto := b[23], src := Address(b, 26, false), dst := Address(b, 30, false)))
  }

  // ---------------------------------------------------------------------
  // Transport header
  // ---------------------------------------------------------------------

  function CalcOffset(isIpv6: bool, isIcmp: bool): nat {
    if isIpv6 then ETH_HLEN + IPV6_HDR_LEN + (if isIcmp then ICMP_HDR_LEN + IPV6_HDR_LEN else 0)
    else ETH_HLEN + IPV4_HDR_LEN + (if isIcmp then ICMP_HDR_LEN + IPV4_HDR_LEN else 0)
  }

  function L4Size(proto: nat): nat {
    if proto == TCP as nat then TCP_HDR_LEN else UDP_HDR_LEN
  }

  predicate SynBit(flags: byte) {
    flags / 2 % 2 == 1
  }

  /** Ports of the header at `o`, exchanged when it is quoted; the SYN flag of TCP. */
  function Ports(b: seq<byte>, o: nat, d: Parsed): Parsed
    requires o + L4Size(d.flow.proto) <= |b|
  {
    var first, second := Be16(b, o), Be16(b, o + 2);
    var e := if d.icmp then d.(flow := d.flow.(sport := second, dport := first))
             else d.(flow := d.flow.(sport := first, dport := second));
    if d.flow.proto == TCP as nat && SynBit(b[o + 13]) then e.(syn := true) else e
  }

  function L4Action(b: seq<byte>, isIpv6: bool, d: Parsed): Action {
    if d.flow.proto != TCP as nat && d.flow.proto != UDP as nat then Pass
    else if CalcOffset(isIpv6, d.icmp) + L4Size(d.flow.proto) > |b| then Drop
    else Further
  }

  /** What happens to the frame before tables are looked at: Further if it has a flow. */
  function ParseAction(b: seq<byte>, isIpv6: bool): Action {
    if L3Action(b, isIpv6) != Further then L3Action(b, isIpv6) else L4Action(b, isIpv6, L3(b, isIpv6))
  }

  function Parse(b: seq<byte>, isIpv6: bool): Parsed
    requires ParseAction(b, isIpv6) == Further
  {
    var d := L3(b, isIpv6);
    Ports(b, CalcOffset(isIpv6, d.icmp), d)
  }

  /** The packet as the balancing decision sees it. */
  function PacketOf(b: seq<byte>, isIpv6: bool, quicId: int): DataPlane.Packet
    requires ParseAction(b, isIpv6) == Further
  {
    var d := Parse(b, isIpv6);
    DataPlane.Packet(d.flow, d.syn, isIpv6, |b|, quicId)
  }

  // ---------------------------------------------------------------------
  // ICMP errors and the connections they are about
  // ---------------------------------------------------------------------

  lemma SameWord(b: seq<byte>, o: nat, c: seq<byte>, p: nat, n: nat, k: nat)
    requires o + n <= |b| && p + n <= |c| && b[o..o + n] == c[p..p + n] && k + 4 <= n
    ensures Word(b, o + k) == Word(c, p + k)
  {
    var x := b[o..o + n];
    assert b[o + k] == x[k] == c[p + k] && b[o + k + 1] == x[k + 1] == c[p + k + 1];
    assert b[o + k + 2] == x[k + 2] == c[p + k + 2] && b[o + k + 3] == x[k + 3] == c[p + k + 3];
  }

  lemma SameAddress(b: seq<byte>, o: nat, c: seq<byte>, p: nat, isIpv6: bool)
    requires var n := if isIpv6 then 16 else 4; o + n <= |b| && p + n <= |c| && b[o..o + n] == c[p..p + n]
    ensures Address(b, o, isIpv6) == Address(c, p, isIpv6)
  {
    hide Word;
    var n := if isIpv6 then 16 else 4;
    SameWord(b, o, c, p, n, 0);
    if isIpv6 {
      SameWord(b, o, c, p, n, 4);
      SameWord(b, o, c, p, n, 8);
      SameWord(b, o, c, p, n, 12);
    }
  }

  /** A packet from the client: TCP or UDP, neither fragment nor ICMP. */
  ghost predicate ClientPacket(c: seq<byte>, isIpv6: bool) {
    ParseAction(c, isIpv6) == Further && !Parse(c, isIpv6).icmp
  }

  /** An ICMP error quoting at least the network header of a packet. */
  ghost predicate ErrorMessage(e: seq<byte>, isIpv6: bool) {
    L3Action(e, isIpv6) == Further && L3(e, isIpv6).icmp
  }

  /** The quoted packet is of the client packet's connection, in the other direction. */
  ghost predicate QuotesReply(e: seq<byte>, c: seq<byte>, isIpv6: bool)
    requires ErrorMessage(e, isIpv6) && ClientPacket(c, isIpv6)
  {
    var q, l4 := QuoteAt(isIpv6), CalcOffset(isIpv6, false);
    && (if isIpv6 then e[q + 6] == c[20] && e[q + 8..q + 24] == c[38..54] && e[q + 24..q + 40] == c[22..38]
        else e[q + 9] == c[23] && e[q + 12..q + 16] == c[30..34] && e[q + 16..q + 20] == c[26..30])
    && (ParseAction(e, isIpv6) == Further ==>
        var o := CalcOffset(isIpv6, true); e[o..o + 2] == c[l4 + 2..l4 + 4] && e[o + 2..o + 4] == c[l4..l4 + 2])
  }

  lemma QuotedNetwork(e: seq<byte>, c: seq<byte>, isIpv6: bool)
    requires ErrorMessage(e, isIpv6) && ClientPacket(c, isIpv6) && QuotesReply(e, c, isIpv6)
    ensures L3(e, isIpv6).flow == L3(c, isIpv6).flow
  {
    var q := QuoteAt(isIpv6);
    if isIpv6 {
      SameAddress(e, q + 8, c, 38, true);
      SameAddress(e, q + 24, c, 22, true);
    } else {
      SameAddress(e, q + 12, c, 30, false);
      SameAddress(e, q + 16, c, 26, false);
    }
  }

  /**
   An error quoting a server's packet has the flow key of the client's packets. It is
   recognised exactly when the whole transport header is quoted: 20 bytes for TCP, of
   which RFC 792 guarantees only 8.
   */
  lemma ErrorHasClientFlow(e: seq<byte>, c: seq<byte>, isIpv6: bool)
    requires ErrorMessage(e, isIpv6) && ClientPacket(c, isIpv6) && QuotesReply(e, c, isIpv6)
    ensures ParseAction(e, isIpv6) ==
      if |e| >= CalcOffset(isIpv6, true) + L4Size(Parse(c, isIpv6).flow.proto) then Further else Drop
    ensures ParseAction(e, isIpv6) == Further ==> Parse(e, isIpv6).flow == Parse(c, isIpv6).flow
  {
    QuotedNetwork(e, c, isIpv6);
    hide L3, L3Action;
    if ParseAction(e, isIpv6) == Further {
      var o, l4 := CalcOffset(isIpv6, true), CalcOffset(isIpv6, false);
      BeAt(e, o, c, l4 + 2);
      BeAt(e, o + 2, c, l4);
    }
  }

  /** From the same state the error goes wherever the connection's packets go. */
  lemma ErrorFollowsConnection(env: DataPlane.Env, t: DataPlane.Tables, cpu: DataPlane.Cpu, e: seq<byte>, c: seq<byte>,
                               isIpv6: bool, q1: int, q2: int, now: DataPlane.Clock)
    requires env.ringSize > 0
    requires ErrorMessage(e, isIpv6) && ClientPacket(c, isIpv6) && QuotesReply(e, c, isIpv6)
      && ParseAction(e, isIpv6) == Further
    requires !Parse(e, isIpv6).syn && !Parse(c, isIpv6).syn
    requires |e| <= DataPlane.MAX_PCKT_SIZE && |c| <= DataPlane.MAX_PCKT_SIZE
    requires var r := DataPlane.Resolve(t, Parse(c, isIpv6).flow);
      r.Some? ==> !DataPlane.Has(r.value.0.flags, DataPlane.F_QUIC_VIP)
    ensures DataPlane.Process(env, t, cpu, PacketOf(e, isIpv6, q1), now) ==
      DataPlane.Process(env, t, cpu, PacketOf(c, isIpv6, q2), now)
  {
    ErrorHasClientFlow(e, c, isIpv6);
    hide Parse, ParseAction, QuotesReply, ErrorMessage, ClientPacket;
    hide DataPlane.Has, DataPlane.Resolve, DataPlane.GetDst, DataPlane.Touch, DataPlane.Lookup;
  }

  // ---------------------------------------------------------------------
  // The program
  // ---------------------------------------------------------------------

  /** The description under construction, with the length field read beside it. */
  class PacketDescription {
    var flow: DataPlane.FlowKey
    var icmp: bool
    var syn: bool
    var tos: byte
    var pktBytes: u16

    ghost function State(): Parsed
      reads this
    {
      Parsed(flow, icmp, syn, tos, pktBytes)
    }

    constructor ()
      ensures State() == EMPTY
    {
      flow, icmp, syn, tos, pktBytes := EMPTY.flow, false, false, 0, 0;
    }
  }

  method GetAddress(f: Frame, o: nat, isIpv6: bool) returns (a: seq<nat>)
    requires f.Valid() && o + (if isIpv6 then 16 else 4) <= f.end - f.head
    ensures a == Address(f.Bytes(), o, isIpv6)
  {
    var n := if isIpv6 then 16 else 4;
    var b := f.Get(o, n);
    SameAddress(b, 0, f.Bytes(), o, isIpv6) by { assert b[0..n] == b; }
    a := Address(b, 0, isIpv6);
  }

  method ParseIcmp(f: Frame, pckt: PacketDescription) returns (action: Action)
    requires f.Valid()
    modifies pckt, f.buf
    ensures f.Room() == old(f.Room())
    ensures action == IcmpAction(old(f.Bytes()))
    ensures f.Bytes() == if action == Transmit then Reply(old(f.Bytes())) else old(f.Bytes())
    ensures action == Further ==> pckt.State() == Quoted(old(f.Bytes()), false, old(pckt.State()))
  {
    hide Reply, Address;
    if 42 > f.end - f.head {
      return Drop;
    }
    var kind := f.GetByte(34);
    if kind == ICMP_ECHO {
      action := SendIcmpReply(f);
      return;
    }
    if kind != ICMP_DEST_UNREACH {
      return Pass;
    }
    if 62 > f.end - f.head {
      return Drop;
    }
    var version := f.GetByte(42);
    if version % 16 != 5 {
      return Drop;
    }
    var proto := f.GetByte(51);
    var src := GetAddress(f, 58, false);
    var dst := GetAddress(f, 54, false);
    pckt.icmp := true;
    pckt.flow := pckt.flow.(proto := proto, src := src, dst := dst);
    return Further;
  }

  method ParseIcmpv6(f: Frame, pckt: PacketDescription) returns (action: Action)
    requires f.Valid()
    modifies pckt, f.buf
    ensures f.Room() == old(f.Room())
    ensures action == Icmp6Action(old(f.Bytes()))
    ensures f.Bytes() == if action == Transmit then Reply6(old(f.Bytes())) else old(f.Bytes())
    ensures action == Further ==> pckt.State() == Quoted(old(f.Bytes()), true, old(pckt.State()))
  {
    hide Reply6, Address;
    if 62 > f.end - f.head {
      return Drop;
    }
    var kind := f.GetByte(54);
    if kind == ICMPV6_ECHO_REQUEST {
      action := SendIcmp6Reply(f);
      return;
    }
    if kind != ICMPV6_PKT_TOOBIG && kind != ICMPV6_DEST_UNREACH {
      return Pass;
    }
    if 102 > f.end - f.head {
      return Drop;
    }
    var proto := f.GetByte(68);
    var src := GetAddress(f, 86, true);
    var dst := GetAddress(f, 70, true);
    pckt.icmp := true;
    pckt.flow := pckt.flow.(proto := proto, src := src, dst := dst);
    return Further;
  }

  /** What a frame becomes: only an echo request is changed, into its reply. */
  ghost function Answered(b: seq<byte>, isIpv6: bool): seq<byte> {
    if L3Action(b, isIpv6) != Transmit then b else if isIpv6 then Reply6(b) else Reply(b)
  }

  method ProcessL3Headers(f: Frame, pckt: PacketDescription, isIpv6: bool) returns (action: Action)
    requires f.Valid() && pckt.State() == EMPTY
    modifies pckt, f.buf
    ensures f.Room() == old(f.Room())
    ensures action == L3Action(old(f.Bytes()), isIpv6)
    ensures f.Bytes() == Answered(old(f.Bytes()), isIpv6)
    ensures action == Further ==> pckt.State() == L3(old(f.Bytes()), isIpv6)
  {
    hide Reply, Reply6;
    if isIpv6 {
      action := ProcessV6Header(f, pckt);
    } else {
      action := ProcessV4Header(f, pckt);
    }
  }

  method ProcessV6Header(f: Frame, pckt: PacketDescription) returns (action: Action)
    requires f.Valid() && pckt.State() == EMPTY
    modifies pckt, f.buf
    ensures f.Room() == old(f.Room())
    ensures action == L3Action(old(f.Bytes()), true)
    ensures f.Bytes() == Answered(old(f.Bytes()), true)
    ensures action == Further ==> pckt.State() == L3(old(f.Bytes()), true)
  {
    hide Reply6, Icmp6Action, Address;
    if 54 > f.end - f.head {
      return Drop;
    }
    var protocol := f.GetByte(20);
    pckt.flow := pckt.flow.(proto := protocol);
    var b0 := f.GetByte(14);
    var b1 := f.GetByte(15);
    pckt.tos := b0 % 16 * 16 + b1 / 16;
    pckt.pktBytes := f.GetBe16(18);
    if protocol == Decap.IPPROTO_FRAGMENT {
      return Drop;
    }
    if protocol == IPPROTO_ICMPV6 {
      action := ParseIcmpv6(f, pckt);
      return;
    }
    var src := GetAddress(f, 22, true);
    var dst := GetAddress(f, 38, true);
    pckt.flow := pckt.flow.(src := src, dst := dst);
    return Further;
  }

  method ProcessV4Header(f: Frame, pckt: PacketDescription) returns (action: Action)
    requires f.Valid() && pckt.State() == EMPTY
    modifies pckt, f.buf
    ensures f.Room() == old(f.Room())
    ensures action == L3Action(old(f.Bytes()), false)
    ensures f.Bytes() == Answered(old(f.Bytes()), false)
    ensures action == Further ==> pckt.State() == L3(old(f.Bytes()), false)
  {
    hide Reply, IcmpAction, Address;
    if 34 > f.end - f.head {
      return Drop;
    }
    var version := f.GetByte(14);
    if version % 16 != 5 {
      return Drop;
    }
    pckt.tos := f.GetByte(15);
    var protocol := f.GetByte(23);
    pckt.flow := pckt.flow.(proto := protocol);
    pckt.pktBytes := f.GetBe16(16);
    var frag0 := f.GetByte(20);
    var frag1 := f.GetByte(21);
    if Decap.Fragmented(frag0, frag1) {
      return Drop;
    }
    if protocol == IPPROTO_ICMP {
      action := ParseIcmp(f, pckt);
      return;
    }
    var src := GetAddress(f, 26, false);
    var dst := GetAddress(f, 30, false);
    pckt.flow := pckt.flow.(src := src, dst := dst);
    return Further;
  }

  method ParseTcp(f: Frame, isIpv6: bool, pckt: PacketDescription) returns (ok: bool)
    requires f.Valid() && pckt.flow.proto == TCP as nat && !pckt.syn
    modifies pckt
    ensures ok <==> CalcOffset(isIpv6, old(pckt.icmp)) + TCP_HDR_LEN <= |f.Bytes()|
    ensures ok ==> pckt.State() == Ports(f.Bytes(), CalcOffset(isIpv6, old(pckt.icmp)), old(pckt.State()))
  {
    var off := CalcOffset(isIpv6, pckt.icmp);
    if off + TCP_HDR_LEN > f.end - f.head {
      return false;
    }
    var flags := f.GetByte(off + 13);
    if SynBit(flags) {
      pckt.syn := true;
    }
    TakePorts(f, off, pckt);
    return true;
  }

  /** Ports, exchanged for a quoted packet. */
  method TakePorts(f: Frame, off: nat, pckt: PacketDescription)
    requires f.Valid() && off + 4 <= f.end - f.head
    modifies pckt`flow
    ensures pckt.flow == old(pckt.flow).(
      sport := Be16(f.Bytes(), if pckt.icmp then off + 2 else off),
      dport := Be16(f.Bytes(), if pckt.icmp then off else off + 2))
  {
    var source := f.GetBe16(off);
    var dest := f.GetBe16(off + 2);
    if !pckt.icmp {
      pckt.flow := pckt.flow.(sport := source, dport := dest);
    } else {
      pckt.flow := pckt.flow.(sport := dest, dport := source);
    }
  }

  method ParseUdp(f: Frame, isIpv6: bool, pckt: PacketDescription) returns (ok: bool)
    requires f.Valid() && pckt.flow.proto == UDP as nat
    modifies pckt
    ensures ok <==> CalcOffset(isIpv6, old(pckt.icmp)) + UDP_HDR_LEN <= |f.Bytes()|
    ensures ok ==> pckt.State() == Ports(f.Bytes(), CalcOffset(isIpv6, old(pckt.icmp)), old(pckt.State()))
  {
    var off := CalcOffset(isIpv6, pckt.icmp);
    if off + UDP_HDR_LEN > f.end - f.head {
      return false;
    }
    TakePorts(f, off, pckt);
    return true;
  }

  /** Everything that happens before the tables are looked at. */
  method ParsePacket(f: Frame, pckt: PacketDescription, isIpv6: bool) returns (action: Action)
    requires f.Valid() && pckt.State() == EMPTY
    modifies pckt, f.buf
    ensures f.Room() == old(f.Room())
    ensures action == ParseAction(old(f.Bytes()), isIpv6)
    ensures f.Bytes() == Answered(old(f.Bytes()), isIpv6)
    ensures action == Further ==> pckt.State() == Parse(old(f.Bytes()), isIpv6)
  {
    action := ProcessL3Headers(f, pckt, isIpv6);
    if action != Further {
      return;
    }
    L3NoSyn(f.Bytes(), isIpv6);
    hide L3, L3Action, Ports;
    var ok;
    if pckt.flow.proto == TCP as nat {
      ok := ParseTcp(f, isIpv6, pckt);
    } else if pckt.flow.proto == UDP as nat {
      ok := ParseUdp(f, isIpv6, pckt);
    } else {
      return Pass;
    }
    return if ok then Further else Drop;
  }

  lemma L3NoSyn(b: seq<byte>, isIpv6: bool)
    requires L3Action(b, isIpv6) == Further
    ensures !L3(b, isIpv6).syn
  {
  }
}
