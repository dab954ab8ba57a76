/**
 Where things are on the wire, byte by byte: which frames go on, what the flow of a frame is
 read from, what an echo reply and a forwarded frame hold, and what decapsulation does.
 */
module Wire {
  import opened Residues
  import opened Bytes
  import opened Frames
  import opened Checksum
  import opened Encap
  import opened EchoReply
  import opened Parsing
  import opened Ingress

  /** Two and four bytes, most significant first. */
  function B16(b: seq<byte>, o: nat): nat
    requires o + 2 <= |b|
  {
    256 * (b[o] as int) + (b[o + 1] as int)
  }

  function B32(b: seq<byte>, o: nat): nat
    requires o + 4 <= |b|
  {
    0x1_0000 * B16(b, o) + B16(b, o + 2)
  }

  // ---------------------------------------------------------------------
  // Which frames have a flow
  // ---------------------------------------------------------------------

  /** Five header words, no more fragments and no fragment offset. */
  predicate Plain4(b: seq<byte>) {
    |b| >= 34 && b[14] % 16 == 5 && b[20] % 64 == 0 && b[21] == 0
  }

  /** What happens to an IPv4 frame before tables are looked at. */
  lemma Actions4(b: seq<byte>)
    ensures ParseAction(b, false) ==
      if !Plain4(b) then Drop
      else if b[23] == 6 then if |b| >= 54 then Further else Drop
      else if b[23] == 17 then if |b| >= 42 then Further else Drop
      else if b[23] != 1 then Pass
      else if |b| < 42 then Drop
      else if b[34] == 8 then Transmit
      else if b[34] != 3 then Pass
      else if |b| < 62 || b[42] % 16 != 5 then Drop
      else if b[51] == 6 then if |b| >= 82 then Further else Drop
      else if b[51] == 17 then if |b| >= 70 then Further else Drop
      else Pass
  {
  }

  lemma Actions6(b: seq<byte>)
    ensures ParseAction(b, true) ==
      if |b| < 54 || b[20] == 44 then Drop
      else if b[20] == 6 then if |b| >= 74 then Further else Drop
      else if b[20] == 17 then if |b| >= 62 then Further else Drop
      else if b[20] != 58 then Pass
      else if |b| < 62 then Drop
      else if b[54] == 128 then Transmit
      else if b[54] != 1 && b[54] != 2 then Pass
      else if |b| < 102 then Drop
      else if b[68] == 6 then if |b| >= 122 then Further else Drop
      else if b[68] == 17 then if |b| >= 110 then Further else Drop
      else Pass
  {
  }

  // ---------------------------------------------------------------------
  // What the flow is read from
  // ---------------------------------------------------------------------

  /** Second flag bit of the TCP header at `o`. */
  predicate Syn(b: seq<byte>, proto: byte, o: nat)
    requires proto == 6 ==> o + 14 <= |b|
  {
    proto == 6 && b[o + 13] / 2 % 2 == 1
  }

  function Words4(b: seq<byte>, o: nat): seq<nat>
    requires o + 4 <= |b|
  {
    [B32(b, o), 0, 0, 0]
  }

  function Words6(b: seq<byte>, o: nat): seq<nat>
    requires o + 16 <= |b|
  {
    [B32(b, o), B32(b, o + 4), B32(b, o + 8), B32(b, o + 12)]
  }

  lemma WordIsB32(b: seq<byte>, o: nat)
    requires o + 4 <= |b|
    ensures Word(b, o) == B32(b, o)
  {
  }

  lemma Addresses(b: seq<byte>, o: nat)
    requires o + 4 <= |b|
    ensures Address(b, o, false) == Words4(b, o)
    ensures o + 16 <= |b| ==> Address(b, o, true) == Words6(b, o)
  {
    hide Word, B32;
    WordIsB32(b, o);
    if o + 16 <= |b| {
      WordIsB32(b, o + 4);
      WordIsB32(b, o + 8);
      WordIsB32(b, o + 12);
    }
  }

  /** A client's IPv4 packet. */
  lemma Fields4(b: seq<byte>)
    requires ParseAction(b, false) == Further && b[23] != 1
    ensures |b| >= 42 && (b[23] == 6 ==> |b| >= 54)
    ensures Parse(b, false) ==
      Parsed(DP.FlowKey(Words4(b, 26), Words4(b, 30), B16(b, 34), B16(b, 36), b[23]), false, Syn(b, b[23], 34),
             b[15], B16(b, 16))
  {
    hide Word, B32;
    Addresses(b, 26);
    Addresses(b, 30);
  }

  lemma Fields6(b: seq<byte>)
    requires ParseAction(b, true) == Further && b[20] != 58
    ensures |b| >= 62 && (b[20] == 6 ==> |b| >= 74)
    ensures Parse(b, true) ==
      Parsed(DP.FlowKey(Words6(b, 22), Words6(b, 38), B16(b, 54), B16(b, 56), b[20]), false, Syn(b, b[20], 54),
             b[14] % 16 * 16 + b[15] / 16, B16(b, 18))
  {
    hide Word, B32;
    Addresses(b, 22);
    Addresses(b, 38);
  }

  /** An ICMP error: addresses and ports of the packet it quotes, exchanged. */
  lemma QuotedFields4(b: seq<byte>)
    requires ParseAction(b, false) == Further && b[23] == 1
    ensures |b| >= 70 && (b[51] == 6 ==> |b| >= 82)
    ensures Parse(b, false) ==
      Parsed(DP.FlowKey(Words4(b, 58), Words4(b, 54), B16(b, 64), B16(b, 62), b[51]), true, Syn(b, b[51], 62),
             b[15], B16(b, 16))
  {
    hide Word, B32;
    Addresses(b, 54);
    Addresses(b, 58);
  }

  lemma QuotedFields6(b: seq<byte>)
    requires ParseAction(b, true) == Further && b[20] == 58
    ensures |b| >= 110 && (b[68] == 6 ==> |b| >= 122)
    ensures Parse(b, true) ==
      Parsed(DP.FlowKey(Words6(b, 86), Words6(b, 70), B16(b, 104), B16(b, 102), b[68]), true, Syn(b, b[68], 102),
             b[14] % 16 * 16 + b[15] / 16, B16(b, 18))
  {
    hide Word, B32;
    Addresses(b, 70);
    Addresses(b, 86);
  }

  // ---------------------------------------------------------------------
  // Echo replies
  // ---------------------------------------------------------------------

  /**
   The frame sent back for an IPv4 echo request: all addresses exchanged, time to live 64, a
   header that verifies, type 0, everything from the identifier on untouched; its ICMP checksum
   verifies if the request's did and the checksum word was below 0xfff8, and only then.
   */
  lemma EchoReply4(b: seq<byte>)
    requires ParseAction(b, false) == Transmit
    ensures |b| >= 42 && |Answered(b, false)| == |b|
    ensures var r := Answered(b, false);
      && r[0..6] == b[6..12] && r[6..12] == b[0..6] && r[12..22] == b[12..22]
      && r[22] == 64 && r[23] == 1 && r[26..30] == b[30..34] && r[30..34] == b[26..30]
      && r[34] == 0 && r[35] == b[35] && r[38..] == b[38..]
      && Verifies(WordSum(r[14..34]))
      && (Verifies(WordSum(b[34..])) ==>
            (Verifies(WordSum(r[34..])) <==> (b[36] as int) + 256 * (b[37] as int) < 0xfff8))
  {
    Actions4(b);
    ReplyParts(b);
    ReplyHeaderVerifies(b[14..34]);
    ReplyHeaderFields(b[14..34]);
    var m := b[34..];
    if Verifies(WordSum(m)) { ReplyVerifiesIff(m); }
    var r, h := Reply(b), ReplyHeader(b[14..34]);
    hide Reply, ReplyHeader, WordSum, ParseAction, L3Action, Verifies;
    assert L3Action(b, false) == Transmit by { TransmitIsEcho(b, false); }
    SliceOf(b, 14, 34, 12, 16);
    SliceOf(b, 14, 34, 16, 20);
    SliceOf(b, 14, 34, 0, 8);
    Header4(r, h, b);
  }

  lemma SliceOf(b: seq<byte>, i: nat, j: nat, k: nat, l: nat)
    requires i <= j <= |b| && k <= l <= j - i
    ensures b[i..j][k..l] == b[i + k..i + l]
  {
    assert forall m :: k <= m < l ==> b[i..j][m] == b[i + m];
  }

  lemma TransmitIsEcho(b: seq<byte>, isIpv6: bool)
    requires ParseAction(b, isIpv6) == Transmit
    ensures L3Action(b, isIpv6) == Transmit
  {
  }

  lemma SwappedMacs(b: seq<byte>)
    requires |b| >= 14
    ensures var eth := SwapMac(b[..14]); eth[0..6] == b[6..12] && eth[6..12] == b[0..6] && eth[12..14] == b[12..14]
  {
    var e := b[..14];
    assert e[6..12] == b[6..12] && e[0..6] == b[0..6] && e[12..] == b[12..14] by {
      SliceOf(b, 0, 14, 6, 12);
      SliceOf(b, 0, 14, 0, 6);
      SliceOf(b, 0, 14, 12, 14);
    }
    var eth := SwapMac(e);
    assert eth[0..6] == e[6..12] && eth[6..12] == e[0..6] && eth[12..14] == e[12..];
  }

  lemma ReplyParts(b: seq<byte>)
    requires |b| >= 42
    ensures var r := Reply(b);
      && r[0..6] == b[6..12] && r[6..12] == b[0..6] && r[12..14] == b[12..14]
      && r[14..34] == ReplyHeader(b[14..34]) && r[34..] == ReplyMessage(b[34..])
      && r[34] == 0 && r[35] == b[35] && r[38..] == b[38..]
  {
    var r, eth, h, m := Reply(b), SwapMac(b[..14]), ReplyHeader(b[14..34]), ReplyMessage(b[34..]);
    SwappedMacs(b);
    assert m[0] == 0 && m[1] == b[35] && m[4..] == b[38..];
    hide ReplyHeader, SwapMac, ReplyMessage;
    assert r[..14] == eth && r[34..] == m;
    SliceOf(r, 0, 14, 0, 6);
    SliceOf(r, 0, 14, 6, 12);
    SliceOf(r, 0, 14, 12, 14);
    SliceOf(r, 34, |r|, 4, |m|);
  }

  lemma Header4(r: seq<byte>, h: seq<byte>, b: seq<byte>)
    requires |r| == |b| >= 34 && r[14..34] == h && r[12..14] == b[12..14]
    requires h[12..16] == b[30..34] && h[16..20] == b[26..30] && h[8] == 64 && h[..8] == b[14..22] && h[9] == b[23]
    ensures r[12..22] == b[12..22] && r[22] == 64 && r[23] == b[23] && r[26..30] == b[30..34] && r[30..34] == b[26..30]
  {
    InnerSlice(r, 14, h, 0, 8);
    InnerSlice(r, 14, h, 12, 16);
    InnerSlice(r, 14, h, 16, 20);
    assert r[22] == r[14..34][8] && r[23] == r[14..34][9];
    assert r[12..22] == r[12..14] + r[14..22] && b[12..22] == b[12..14] + b[14..22];
  }

  /** Sum over addresses at 22 and 38, length, next header 58 and the message at 54. */
  function IcmpSum6(b: seq<byte>, length: seq<byte>): nat
    requires |b| >= 54
  {
    WordSum(b[22..38]) + WordSum(b[38..54]) + WordSum(length) + WordSum([0, 0, 0, 58]) + WordSum(b[54..])
  }

  /** The same for IPv6, where the checksum covers the addresses: it verifies unless the word was zero. */
  lemma EchoReply6(b: seq<byte>, length: seq<byte>)
    requires ParseAction(b, true) == Transmit
    ensures |b| >= 62 && |Answered(b, true)| == |b|
    ensures var r := Answered(b, true);
      && r[0..6] == b[6..12] && r[6..12] == b[0..6] && r[12..21] == b[12..21]
      && r[21] == 64 && r[22..38] == b[38..54] && r[38..54] == b[22..38]
      && r[54] == 129 && r[55] == b[55] && r[58..] == b[58..]
      && (Verifies(IcmpSum6(b, length)) ==> (Verifies(IcmpSum6(r, length)) <==> b[56] != 0 || b[57] != 0))
  {
    Actions6(b);
    ReplyParts6(b);
    var h, m := b[14..54], b[54..];
    SliceOf(b, 14, 54, 8, 24);
    SliceOf(b, 14, 54, 24, 40);
    if Verifies(IcmpSum6(b, length)) { Reply6VerifiesIff(h, m, length); }
    var r := Reply6(b);
    SliceOf(r, 14, 54, 8, 24);
    SliceOf(r, 14, 54, 24, 40);
    hide Reply6, ReplyHeader6, WordSum, ParseAction, L3Action, Verifies, ReplyMessage6;
    assert L3Action(b, true) == Transmit by { TransmitIsEcho(b, true); }
  }

  lemma ReplyParts6(b: seq<byte>)
    requires |b| >= 62
    ensures var r := Reply6(b);
      && r[0..6] == b[6..12] && r[6..12] == b[0..6] && r[12..21] == b[12..21] && r[21] == 64
      && r[22..38] == b[38..54] && r[38..54] == b[22..38]
      && r[14..54] == ReplyHeader6(b[14..54]) && r[54..] == ReplyMessage6(b[54..])
      && r[54] == 129 && r[55] == b[55] && r[58..] == b[58..]
  {
    var r, eth, h, m := Reply6(b), SwapMac(b[..14]), ReplyHeader6(b[14..54]), ReplyMessage6(b[54..]);
    SwappedMacs(b);
    assert m[0] == 129 && m[1] == b[55] && m[4..] == b[58..];
    assert h[7] == 64 && h[0..7] == b[14..54][0..7] && h[8..24] == b[14..54][24..40] && h[24..40] == b[14..54][8..24];
    hide SwapMac, ReplyMessage6, ReplyHeader6;
    assert r[..14] == eth && r[54..] == m && r[14..54] == h;
    SliceOf(r, 0, 14, 0, 6);
    SliceOf(r, 0, 14, 6, 12);
    SliceOf(r, 0, 14, 12, 14);
    SliceOf(r, 54, |r|, 4, |m|);
    assert r[21] == r[14..54][7];
    SliceOf(b, 14, 54, 0, 7);
    SliceOf(b, 14, 54, 8, 24);
    SliceOf(b, 14, 54, 24, 40);
    InnerSlice(r, 14, h, 0, 7);
    InnerSlice(r, 14, h, 8, 24);
    InnerSlice(r, 14, h, 24, 40);
    assert r[12..21] == r[12..14] + r[14..21] && b[12..21] == b[12..14] + b[14..21];
  }

  // ---------------------------------------------------------------------
  // Decapsulation
  // ---------------------------------------------------------------------

  /** What the decapsulation program does with an IPv4 frame: anything but a tunnel passes unchanged. */
  lemma Decapsulated4(b: seq<byte>)
    requires |b| >= 14 && b[12..14] == [8, 0]
    ensures Decap.Decapsulate(b) ==
      if !Plain4(b) then (Drop, b)
      else if b[23] == 4 then (Pass, b[..12] + [8, 0] + b[34..])
      else if b[23] == 41 then if |b| < 54 then (Drop, b) else (Pass, b[..12] + [0x86, 0xdd] + b[54..])
      else (Pass, b)
  {
  }

  lemma Decapsulated6(b: seq<byte>)
    requires |b| >= 14 && b[12..14] == [0x86, 0xdd]
    ensures Decap.Decapsulate(b) ==
      if |b| < 54 || b[20] == 44 then (Drop, b)
      else if b[20] == 4 then (Pass, b[..12] + [8, 0] + b[54..])
      else if b[20] == 41 then (Pass, b[..12] + [0x86, 0xdd] + b[54..])
      else (Pass, b)
  {
  }

  /** Frames of other types pass, frames without a type are dropped. */
  lemma DecapsulatedOther(b: seq<byte>)
    requires |b| >= 14 ==> b[12..14] != [8, 0] && b[12..14] != [0x86, 0xdd]
    ensures Decap.Decapsulate(b) == (if |b| < 14 then Drop else Pass, b)
  {
  }

  // ---------------------------------------------------------------------
  // Forwarded frames
  // ---------------------------------------------------------------------

  /** The bytes of a word, most significant first. */
  function WordBytes(w: nat): seq<byte> {
    [w / 256 / 256 / 256 % 256, w / 256 / 256 % 256, w / 256 % 256, w % 256]
  }

  lemma PutWordBytes(w: nat)
    ensures PutWord(w) == WordBytes(w)
  {
    var x, d := w / 256 / 256, w % 256;
    var c := w / 256 % 256;
    assert w == U16 * x + (256 * c + d);
    DivModUnique(w, U16, x, 256 * c + d);
    var y, b := x / 256 / 256, x % 256;
    var a := x / 256 % 256;
    assert w == U32 * y + (U16 * (256 * a + b) + (256 * c + d));
    DivModUnique(w, U32, y, U16 * (256 * a + b) + (256 * c + d));
    DivModUnique(w % U32, U16, 256 * a + b, 256 * c + d);
    DivModUnique(256 * a + b, 256, a, b);
    DivModUnique(256 * c + d, 256, c, d);
  }

  /** Exclusive or of the low bytes. */
  function Mixed(a: int, b: int): byte {
    ((a % 256) as bv8 ^ (b % 256) as bv8) as int
  }

  lemma MixedBytes(a: int, b: int, x: byte, y: byte)
    requires a % 256 == x && b % 256 == y
    ensures Mixed(a, b) == Xor(x, y)
  {
  }

  lemma PortBytes(sport: nat)
    ensures PutBe16(sport % U16)[0] == sport / 256 % 256 && PutBe16(sport % U16)[1] == sport % 256
  {
    var y, a, b := sport / 256 / 256, sport / 256 % 256, sport % 256;
    assert sport == U16 * y + (256 * a + b);
    DivModUnique(sport, U16, y, 256 * a + b);
    DivModUnique(256 * a + b, 256, a, b);
  }

  /**
   A frame to an IPv4 real: router and own hardware address, type, version and header length,
   the client's type of service, identification left as it lay, no fragment, time to live 64,
   protocol 4, a header that verifies, and the client's IP packet.
   */
  lemma ForwardedTo4(b: seq<byte>, mac: Mac, isIpv6: bool, flow: DP.FlowKey, d: Parsed, w: nat, id: seq<byte>)
    requires |b| >= 14 && |flow.src| == 4 && |id| == 2
    ensures var r := Forwarded(b, mac, isIpv6, DescriptionOf(flow, d), A.V4(w), id);
      && |r| == |b| + 20 && r[0..6] == mac && r[6..12] == b[0..6] && r[12..14] == [8, 0]
      && r[14] == 0x45 && r[15] == d.tos && B16(r, 16) == (d.pktBytes + 20) % 0x1_0000 && r[18..20] == id
      && r[20] == 0 && r[21] == 0 && r[22] == 64 && r[23] == 4
      && r[34..] == b[14..] && Verifies(WordSum(r[14..34]))
  {
    var desc := DescriptionOf(flow, d);
    var v := OuterV4(desc, PutWord(w), id);
    Headers.V4Fields(v);
    Headers.V4HeaderVerifies(v);
    var h, r := Headers.V4Bytes(v), Encapsulated4(b, mac, desc, PutWord(w), id);
    hide Headers.V4Bytes, PutWord, OuterSource4, DescriptionOf, WordSum, Verifies;
    FrameParts(mac, b[0..6], ETH_P_IP, h, b[14..]);
    InnerSlice(r, 14, h, 4, 6);
  }

  /** Its source is 172.16 with the client's low address bytes and port mixed in, its destination the real. */
  lemma TunnelAddresses4(b: seq<byte>, mac: Mac, isIpv6: bool, flow: DP.FlowKey, d: Parsed, w: nat, id: seq<byte>)
    requires |b| >= 14 && |flow.src| == 4 && |id| == 2
    ensures var r := Forwarded(b, mac, isIpv6, DescriptionOf(flow, d), A.V4(w), id);
      && |r| >= 34 && r[30..34] == WordBytes(w)
      && r[26..30] == [172, 16, Mixed(flow.src[0] / 256, flow.sport), Mixed(flow.src[0], flow.sport / 256)]
  {
    PutWordBytes(w);
    var desc := DescriptionOf(flow, d);
    OuterSourceBytes4(flow, d);
    var v := OuterV4(desc, PutWord(w), id);
    Headers.V4Fields(v);
    var h, r := Headers.V4Bytes(v), Encapsulated4(b, mac, desc, PutWord(w), id);
    hide Headers.V4Bytes, PutWord, OuterSource4, DescriptionOf, Mixed, WordBytes;
    FrameParts(mac, b[0..6], ETH_P_IP, h, b[14..]);
    InnerSlice(r, 14, h, 12, 16);
    InnerSlice(r, 14, h, 16, 20);
  }

  /** The parts of a frame. */
  lemma FrameParts(dst: seq<byte>, src: seq<byte>, kind: seq<byte>, h: seq<byte>, rest: seq<byte>)
    requires |dst| == 6 && |src| == 6 && |kind| == 2
    ensures var r := dst + src + kind + h + rest;
      && r[0..6] == dst && r[6..12] == src && r[12..14] == kind && r[14..14 + |h|] == h && r[14 + |h|..] == rest
      && forall k :: 0 <= k < |h| ==> r[14 + k] == h[k]
  {
  }

  lemma OuterSourceBytes4(flow: DP.FlowKey, d: Parsed)
    requires |flow.src| == 4
    ensures OuterSource4(DescriptionOf(flow, d)) ==
      [172, 16, Mixed(flow.src[0] / 256, flow.sport), Mixed(flow.src[0], flow.sport / 256)]
  {
    var all, port := DescriptionOf(flow, d).src, DescriptionOf(flow, d).sport;
    PutWordBytes(flow.src[0]);
    PortBytes(flow.sport);
    assert all[2] == PutWord(flow.src[0])[2] && all[3] == PutWord(flow.src[0])[3];
    hide PutWord, PutBe16, Xor, Mixed;
    MixedBytes(flow.src[0] / 256, flow.sport, all[2], port[1]);
    MixedBytes(flow.src[0], flow.sport / 256, all[3], port[0]);
  }

  /**
   A frame to an IPv6 real: the same with version 6, the client's traffic class and a protocol
   that tells the inner version.
   */
  lemma ForwardedTo6(b: seq<byte>, mac: Mac, isIpv6: bool, flow: DP.FlowKey, d: Parsed, addr: A.Addr, id: seq<byte>)
    requires |b| >= 14 && |flow.src| == 4 && |id| == 2 && addr.V6?
    ensures var r := Forwarded(b, mac, isIpv6, DescriptionOf(flow, d), addr, id);
      && |r| == |b| + 40 && r[0..6] == mac && r[6..12] == b[0..6] && r[12..14] == [0x86, 0xdd]
      && r[14] / 16 == 6 && r[14] % 16 * 16 + r[15] / 16 == d.tos
      && B16(r, 18) == (d.pktBytes + if isIpv6 then 40 else 0) % 0x1_0000
      && r[20] == (if isIpv6 then 41 else 4) && r[21] == 64 && r[54..] == b[14..]
  {
    hide Headers.V6Bytes, PutWord, OuterSource6, DescriptionOf, FourWords;
    var desc, dst := DescriptionOf(flow, d), FourWords(addr.w0, addr.w1, addr.w2, addr.w3);
    var v := OuterV6(desc, isIpv6, dst);
    Headers.V6Fields(v);
    var h, r := Headers.V6Bytes(v), Encapsulated6(b, mac, desc, isIpv6, dst);
    FrameParts(mac, b[0..6], ETH_P_IPV6, h, b[14..]);
    assert desc.tos == d.tos && desc.pktBytes == d.pktBytes by { Kept(flow, d); }
  }

  lemma Kept(flow: DP.FlowKey, d: Parsed)
    requires |flow.src| == 4
    ensures DescriptionOf(flow, d).tos == d.tos && DescriptionOf(flow, d).pktBytes == d.pktBytes
  {
  }

  /** Its source is 0100:: with the client's last word and port mixed in, its destination the real. */
  lemma TunnelAddresses6(b: seq<byte>, mac: Mac, isIpv6: bool, flow: DP.FlowKey, d: Parsed, addr: A.Addr, id: seq<byte>)
    requires |b| >= 14 && |flow.src| == 4 && |id| == 2 && addr.V6?
    ensures var r := Forwarded(b, mac, isIpv6, DescriptionOf(flow, d), addr, id);
      var word := if isIpv6 then flow.src[3] else flow.src[0];
      && |r| >= 54 && r[22..34] == [1, 0, 0, 0, 0, 0, 0, 0, 0, 0, 0, 0]
      && r[34..38] == [Mixed(word / 256 / 256 / 256, flow.sport / 256), Mixed(word / 256 / 256, flow.sport),
                       word / 256 % 256, word % 256]
      && r[38..54] == WordBytes(addr.w0) + WordBytes(addr.w1) + WordBytes(addr.w2) + WordBytes(addr.w3)
  {
    hide Headers.V6Bytes, PutWord, OuterSource6, DescriptionOf, Mixed, WordBytes, FourWords;
    FourWordsBytes(addr);
    var desc, dst := DescriptionOf(flow, d), FourWords(addr.w0, addr.w1, addr.w2, addr.w3);
    OuterSourceBytes6(flow, d, isIpv6);
    var v := OuterV6(desc, isIpv6, dst);
    Headers.V6Fields(v);
    var h, r := Headers.V6Bytes(v), Encapsulated6(b, mac, desc, isIpv6, dst);
    FrameParts(mac, b[0..6], ETH_P_IPV6, h, b[14..]);
    InnerSlice(r, 14, h, 8, 24);
    InnerSlice(r, 14, h, 24, 40);
    SliceOf(r, 22, 38, 0, 12);
    SliceOf(r, 22, 38, 12, 16);
  }

  lemma FourWordsBytes(addr: A.Addr)
    requires addr.V6?
    ensures FourWords(addr.w0, addr.w1, addr.w2, addr.w3) ==
      WordBytes(addr.w0) + WordBytes(addr.w1) + WordBytes(addr.w2) + WordBytes(addr.w3)
  {
    PutWordBytes(addr.w0);
    PutWordBytes(addr.w1);
    PutWordBytes(addr.w2);
    PutWordBytes(addr.w3);
    hide PutWord, WordBytes;
  }

  lemma OuterSourceBytes6(flow: DP.FlowKey, d: Parsed, isIpv6: bool)
    requires |flow.src| == 4
    ensures var word := if isIpv6 then flow.src[3] else flow.src[0];
      var s := OuterSource6(DescriptionOf(flow, d), isIpv6);
      && s[0..12] == [1, 0, 0, 0, 0, 0, 0, 0, 0, 0, 0, 0]
      && s[12..16] == [Mixed(word / 256 / 256 / 256, flow.sport / 256), Mixed(word / 256 / 256, flow.sport),
                       word / 256 % 256, word % 256]
  {
    var all, port := DescriptionOf(flow, d).src, DescriptionOf(flow, d).sport;
    PutWordBytes(flow.src[0]);
    PutWordBytes(flow.src[3]);
    PortBytes(flow.sport);
    assert all[0..4] == PutWord(flow.src[0]) && all[12..16] == PutWord(flow.src[3]);
    hide PutWord, PutBe16, Xor, Mixed, FourWords, DescriptionOf;
    var word, bytes := if isIpv6 then flow.src[3] else flow.src[0], if isIpv6 then all[12..16] else all[0..4];
    assert bytes == WordBytes(word);
    MixedBytes(word / 256 / 256 / 256, flow.sport / 256, bytes[0], port[0]);
    MixedBytes(word / 256 / 256, flow.sport, bytes[1], port[1]);
  }

  /** The length field of the client's packet counts all of it. */
  predicate OwnLength(b: seq<byte>, isIpv6: bool) {
    if isIpv6 then |b| >= 54 && B16(b, 18) == |b| - 54 else |b| >= 34 && B16(b, 16) == |b| - 14
  }

  /**
   The outer length counts exactly what follows, if the client's own length did; except that an
   IPv6 packet sent to an IPv4 real is taken 40 bytes too short.
   */
  lemma SentLength(e: DP.Env, t: DP.Tables, cpu: DP.Cpu, b: seq<byte>, room: seq<byte>, mac: Mac, isIpv6: bool,
                   quicId: int, now: DP.Clock)
    requires e.ringSize > 0 && ParseAction(b, isIpv6) == Further && OwnLength(b, isIpv6)
    requires Processed(e, t, cpu, b, room, mac, isIpv6, quicId, now).action == Transmit
    ensures var r := Processed(e, t, cpu, b, room, mac, isIpv6, quicId, now).frame;
      && |r| >= 34
      && (r[12..14] == [8, 0] ==> |r| == |b| + 20 && (B16(r, 16) == |r| - 14 <==> !isIpv6))
      && (r[12..14] == [0x86, 0xdd] ==> |r| == |b| + 40 && B16(r, 18) == |r| - 54)
      && (r[12..14] == [8, 0] || r[12..14] == [0x86, 0xdd])
  {
    ProcessedKnown(e, t, cpu, b, room, mac, isIpv6, quicId, now);
    LengthRead(b, isIpv6);
    var p, d := PacketOf(b, isIpv6, quicId), Parse(b, isIpv6);
    SentIsSmall(e, t, cpu, p, now);
    var flow, addr := DP.FinalFlow(e, t, cpu, p, now), DP.Process(e, t, cpu, p, now).verdict.addr;
    hide Parse, ParseAction, DP.Process, DP.FinalFlow, Forwarded, Processed, DescriptionOf, OwnLength, B16;
    ForwardedLength(b, mac, isIpv6, flow, d, addr, room[|room| - 2..]);
  }

  lemma ForwardedLength(b: seq<byte>, mac: Mac, isIpv6: bool, flow: DP.FlowKey, d: Parsed, addr: A.Addr, id: seq<byte>)
    requires OwnLength(b, isIpv6) && |b| <= 1514 && |flow.src| == 4 && |id| == 2
    requires d.pktBytes == B16(b, if isIpv6 then 18 else 16)
    ensures var r := Forwarded(b, mac, isIpv6, DescriptionOf(flow, d), addr, id);
      && |r| >= 34
      && (r[12..14] == [8, 0] ==> |r| == |b| + 20 && (B16(r, 16) == |r| - 14 <==> !isIpv6))
      && (r[12..14] == [0x86, 0xdd] ==> |r| == |b| + 40 && B16(r, 18) == |r| - 54)
      && (r[12..14] == [8, 0] || r[12..14] == [0x86, 0xdd])
  {
    assert |b| >= 34;
    hide Forwarded, DescriptionOf, B16, OwnLength;
    TypesDiffer();
    if addr.V4? {
      Length4(b, mac, isIpv6, flow, d, addr.word, id);
    } else {
      Length6(b, mac, isIpv6, flow, d, addr, id);
    }
  }

  lemma TypesDiffer()
    ensures [8, 0] != [0x86, 0xdd]
  {
    assert [8, 0][0] != [0x86, 0xdd][0];
  }

  lemma Length4(b: seq<byte>, mac: Mac, isIpv6: bool, flow: DP.FlowKey, d: Parsed, w: nat, id: seq<byte>)
    requires OwnLength(b, isIpv6) && |b| <= 1514 && |flow.src| == 4 && |id| == 2
    requires d.pktBytes == B16(b, if isIpv6 then 18 else 16)
    ensures var r := Forwarded(b, mac, isIpv6, DescriptionOf(flow, d), A.V4(w), id);
      |r| == |b| + 20 && r[12..14] == [8, 0] && (B16(r, 16) == |r| - 14 <==> !isIpv6)
  {
    hide Forwarded, DescriptionOf, B16, WordSum, Verifies;
    ForwardedTo4(b, mac, isIpv6, flow, d, w, id);
    assert (d.pktBytes + 20) % 0x1_0000 == d.pktBytes + 20;
  }

  lemma Length6(b: seq<byte>, mac: Mac, isIpv6: bool, flow: DP.FlowKey, d: Parsed, addr: A.Addr, id: seq<byte>)
    requires OwnLength(b, isIpv6) && |b| <= 1514 && |flow.src| == 4 && |id| == 2 && addr.V6?
    requires d.pktBytes == B16(b, if isIpv6 then 18 else 16)
    ensures var r := Forwarded(b, mac, isIpv6, DescriptionOf(flow, d), addr, id);
      |r| == |b| + 40 && r[12..14] == [0x86, 0xdd] && B16(r, 18) == |r| - 54
  {
    hide Forwarded, DescriptionOf, B16;
    ForwardedTo6(b, mac, isIpv6, flow, d, addr, id);
  }

  lemma LengthRead(b: seq<byte>, isIpv6: bool)
    requires ParseAction(b, isIpv6) == Further
    ensures |b| >= 34 && Parse(b, isIpv6).pktBytes == B16(b, if isIpv6 then 18 else 16)
  {
  }

  /** Nothing above the size limit is sent. */
  lemma SentIsSmall(e: DP.Env, t: DP.Tables, cpu: DP.Cpu, p: DP.Packet, now: DP.Clock)
    requires e.ringSize > 0 && DP.Process(e, t, cpu, p, now).verdict.Send?
    ensures p.size <= 1514
  {
  }
}
