/** Replies to echo requests, made in place in the request's buffer (handle_icmp.h). */
module EchoReply {
  import opened Bytes
  import opened Frames
  import opened Checksum
  import opened Headers

  const ICMP_CHECK: nat := 2
  const ICMP_ECHO: byte := 8
  const ICMP_ECHOREPLY: byte := 0
  const ICMPV6_ECHO_REQUEST: byte := 128
  const ICMPV6_ECHO_REPLY: byte := 129
  const IPPROTO_ICMPV6: byte := 58
  const ICMP_HDR_LEN: nat := 8

  /** Destination and source hardware address exchanged. */
  function SwapMac(eth: seq<byte>): (r: seq<byte>)
    requires |eth| == ETH_HLEN
    ensures |r| == ETH_HLEN
  {
    eth[6..12] + eth[0..6] + eth[12..]
  }

  // ---------------------------------------------------------------------
  // ICMP over IPv4
  // ---------------------------------------------------------------------

  /** The IP header of the reply: fresh time to live, addresses exchanged, checksum recomputed. */
  function ReplyZeroed(h: seq<byte>): (r: seq<byte>)
    requires |h| == IPV4_HDR_LEN
    ensures |r| == IPV4_HDR_LEN && r[CHECK..CHECK + 2] == [0, 0]
  {
    h[..TTL] + [DEFAULT_TTL, h[9], 0, 0] + h[16..20] + h[12..16]
  }

  function ReplyHeader(h: seq<byte>): (r: seq<byte>)
    requires |h| == IPV4_HDR_LEN
    ensures |r| == IPV4_HDR_LEN
  {
    Patch(ReplyZeroed(h), CHECK, PutLe16(CheckOf(ReplyZeroed(h))))
  }

  /** A message with another type and its checksum adjusted, cut to 16 bits without end-around carry. */
  function Retyped(m: seq<byte>, kind: byte, delta: int): (r: seq<byte>)
    requires |m| >= ICMP_HDR_LEN
    ensures |r| == |m|
  {
    [kind, m[1]] + PutLe16((Le16(m, ICMP_CHECK) + delta) % U16) + m[4..]
  }

  /** The ICMP message of the reply: type 0, and 8 added to the checksum without end-around carry. */
  function ReplyMessage(m: seq<byte>): (r: seq<byte>)
    requires |m| >= ICMP_HDR_LEN
    ensures |r| == |m|
  {
    Retyped(m, ICMP_ECHOREPLY, 8)
  }

  lemma ReplyHeaderVerifies(h: seq<byte>)
    requires |h| == IPV4_HDR_LEN
    ensures Verifies(WordSum(ReplyHeader(h)))
  {
    CheckMakesValid(ReplyZeroed(h), CHECK);
  }

  /** The reply goes back to where the request came from. */
  lemma ReplyHeaderFields(h: seq<byte>)
    requires |h| == IPV4_HDR_LEN
    ensures var r := ReplyHeader(h);
      r[12..16] == h[16..20] && r[16..20] == h[12..16] && r[TTL] == DEFAULT_TTL && r[..TTL] == h[..TTL] && r[9] == h[9]
  {
  }

  /** Sum of a message whose first two words are replaced. */
  lemma FirstWords(m: seq<byte>, a: byte, check: u16)
    requires |m| >= 4
    ensures WordSum([a, m[1]] + PutLe16(check) + m[4..]) == WordSum(m) - m[0] + a - Le16(m, ICMP_CHECK) + check
  {
  }

  /** The adjusted checksum is right exactly when the addition did not wrap. */
  lemma ReplyVerifiesIff(m: seq<byte>)
    requires |m| >= ICMP_HDR_LEN && m[0] == ICMP_ECHO && Verifies(WordSum(m))
    ensures Verifies(WordSum(ReplyMessage(m))) <==> Le16(m, ICMP_CHECK) < 0xfff8
  {
    var check := Le16(m, ICMP_CHECK);
    FirstWords(m, ICMP_ECHOREPLY, (check + 8) % U16);
    hide WordSum, PutLe16;
    Wraps(WordSum(m), WordSum(ReplyMessage(m)), if check < 0xfff8 then 0 else -0x1_0000);
  }

  lemma Wraps(sum: nat, after: nat, delta: int)
    requires Verifies(sum) && after == sum + delta && (delta == 0 || delta == 0x1_0000 || delta == -0x1_0000)
    ensures Verifies(after) <==> delta == 0
  {
  }

  /** The whole frame of the reply. */
  function Reply(b: seq<byte>): (r: seq<byte>)
    requires |b| >= ETH_HLEN + IPV4_HDR_LEN + ICMP_HDR_LEN
    ensures |r| == |b|
  {
    SwapMac(b[..14]) + ReplyHeader(b[14..34]) + ReplyMessage(b[34..])
  }

  // ---------------------------------------------------------------------
  // ICMP over IPv6
  // ---------------------------------------------------------------------

  function ReplyHeader6(h: seq<byte>): (r: seq<byte>)
    requires |h| == IPV6_HDR_LEN
    ensures |r| == IPV6_HDR_LEN
  {
    h[..7] + [DEFAULT_TTL] + h[24..40] + h[8..24]
  }

  /** Type 129 for 128, and 1 taken from the checksum without end-around borrow. */
  function ReplyMessage6(m: seq<byte>): (r: seq<byte>)
    requires |m| >= ICMP_HDR_LEN
    ensures |r| == |m|
  {
    Retyped(m, ICMPV6_ECHO_REPLY, -1)
  }

  /** Sum over the pseudo-header (addresses of the IP header, length, next header) and the message. */
  function Sum6(h: seq<byte>, m: seq<byte>, length: seq<byte>): nat
    requires |h| == IPV6_HDR_LEN
  {
    WordSum(h[8..24]) + WordSum(h[24..40]) + WordSum(length) + WordSum([0, 0, 0, IPPROTO_ICMPV6]) + WordSum(m)
  }

  /** The exchange of the addresses does not matter; the adjustment is right exactly when it did not wrap. */
  lemma Reply6VerifiesIff(h: seq<byte>, m: seq<byte>, length: seq<byte>)
    requires |h| == IPV6_HDR_LEN && |m| >= ICMP_HDR_LEN && m[0] == ICMPV6_ECHO_REQUEST && Verifies(Sum6(h, m, length))
    ensures Verifies(Sum6(ReplyHeader6(h), ReplyMessage6(m), length)) <==> Le16(m, ICMP_CHECK) != 0
  {
    var check := Le16(m, ICMP_CHECK);
    FirstWords(m, ICMPV6_ECHO_REPLY, (check - 1) % U16);
    assert ReplyHeader6(h)[8..24] == h[24..40] && ReplyHeader6(h)[24..40] == h[8..24];
    hide WordSum, PutLe16;
    assert (check - 1) % U16 == if check == 0 then 0xffff else check - 1;
    Wraps(Sum6(h, m, length), Sum6(ReplyHeader6(h), ReplyMessage6(m), length), if check != 0 then 0 else 0x1_0000);
  }

  function Reply6(b: seq<byte>): (r: seq<byte>)
    requires |b| >= ETH_HLEN + IPV6_HDR_LEN + ICMP_HDR_LEN
    ensures |r| == |b|
  {
    SwapMac(b[..14]) + ReplyHeader6(b[14..54]) + ReplyMessage6(b[54..])
  }

  // ---------------------------------------------------------------------
  // The programs
  // ---------------------------------------------------------------------

  method SwapMacAndSend(f: Frame) returns (action: Action)
    requires f.Valid() && ETH_HLEN <= f.end - f.head
    modifies f.buf
    ensures f.Room() == old(f.Room())
    ensures action == Transmit
    ensures f.Bytes() == SwapMac(old(f.Bytes())[..14]) + old(f.Bytes())[14..]
  {
    ghost var b := f.Bytes();
    var source := f.Get(6, 6);
    var dest := f.Get(0, 6);
    SwappedBytes(b);
    hide Patch, SwapMac;
    f.Put(6, dest);
    f.Put(0, source);
    return Transmit;
  }

  lemma SwappedBytes(b: seq<byte>)
    requires |b| >= ETH_HLEN
    ensures Patch(Patch(b, 6, b[0..6]), 0, b[6..12]) == SwapMac(b[..14]) + b[14..]
  {
  }

  /** Type and checksum of the message at `o`. */
  method Retype(f: Frame, o: nat, kind: byte, delta: int)
    requires f.Valid() && o + ICMP_HDR_LEN <= f.end - f.head
    modifies f.buf
    ensures f.Room() == old(f.Room())
    ensures f.Bytes() == old(f.Bytes())[..o] + Retyped(old(f.Bytes())[o..], kind, delta)
  {
    ghost var b := f.Bytes();
    LeAt(b, o + 2, b[o..], 2);
    var check := f.GetLe16(o + ICMP_CHECK);
    hide Le16, PutLe16, Patch;
    var sum: int := check + delta;
    var word := PutLe16(sum % U16);
    f.Put(o, [kind]);
    f.Put(o + ICMP_CHECK, word);
    RetypedBytes(b, o, kind, word);
  }

  lemma RetypedBytes(b: seq<byte>, o: nat, kind: byte, word: seq<byte>)
    requires o + ICMP_HDR_LEN <= |b| && |word| == 2
    ensures Patch(Patch(b, o, [kind]), o + ICMP_CHECK, word) == b[..o] + ([kind, b[o..][1]] + word + b[o..][4..])
  {
  }

  /** The IP header at 14, for the way back. */
  method Readdress(f: Frame)
    requires f.Valid() && ETH_HLEN + IPV4_HDR_LEN <= f.end - f.head
    modifies f.buf
    ensures f.Room() == old(f.Room())
    ensures f.Bytes() == Patch(old(f.Bytes()), 14, ReplyHeader(old(f.Bytes())[14..34]))
  {
    ghost var b := f.Bytes();
    ghost var h := b[14..34];
    TurnAround(f);
    PatchReads(b, 14, ReplyZeroed(h));
    hide ReplyZeroed, CheckOf, PutLe16;
    var csum := Ipv4CsumInline(f, 14);
    f.Put(14 + CHECK, PutLe16(csum));
    PatchInside(b, 14, ReplyZeroed(h), CHECK, PutLe16(csum));
  }

  method TurnAround(f: Frame)
    requires f.Valid() && ETH_HLEN + IPV4_HDR_LEN <= f.end - f.head
    modifies f.buf
    ensures f.Room() == old(f.Room())
    ensures f.Bytes() == Patch(old(f.Bytes()), 14, ReplyZeroed(old(f.Bytes())[14..34]))
  {
    ghost var b := f.Bytes();
    var saddr := f.Get(26, 4);
    var daddr := f.Get(30, 4);
    hide Patch, ReplyZeroed;
    f.Put(14 + TTL, [DEFAULT_TTL]);
    f.Put(14 + CHECK, [0, 0]);
    f.Put(26, daddr);
    f.Put(30, saddr);
    TurnedBytes(b);
  }

  lemma TurnedBytes(b: seq<byte>)
    requires |b| >= ETH_HLEN + IPV4_HDR_LEN
    ensures Patch(Patch(Patch(Patch(b, 14 + TTL, [DEFAULT_TTL]), 14 + CHECK, [0, 0]), 26, b[30..34]), 30, b[26..30])
         == Patch(b, 14, ReplyZeroed(b[14..34]))
  {
    var saddr, daddr, h := b[26..30], b[30..34], b[14..34];
    PatchJoin(b, 22, [DEFAULT_TTL], 24, [0, 0]);
    var front := [DEFAULT_TTL] + b[23..24] + [0, 0];
    PatchJoin(b, 22, front, 26, daddr);
    PatchJoin(b, 22, front + b[26..26] + daddr, 30, saddr);
    var tail := front + b[26..26] + daddr + b[30..30] + saddr;
    assert h[9] == b[23] && h[12..16] == saddr && h[16..20] == daddr;
    assert tail == [DEFAULT_TTL, h[9], 0, 0] + h[16..20] + h[12..16];
    assert b[..14] + h[..TTL] == b[..22];
  }

  lemma MiddleBytes(b: seq<byte>, k: nat, h: seq<byte>, m: seq<byte>)
    requires 14 <= k <= |b| && |h| == k - 14
    ensures (b[..k] + m)[14..k] == b[14..k]
    ensures Patch(b[..k] + m, 14, h)[..14] == b[..14] && Patch(b[..k] + m, 14, h)[14..] == h + m
  {
  }

  method SendIcmpReply(f: Frame) returns (action: Action)
    requires f.Valid()
    modifies f.buf
    ensures f.Room() == old(f.Room())
    ensures |old(f.Bytes())| < ETH_HLEN + IPV4_HDR_LEN + ICMP_HDR_LEN ==> action == Drop && f.Bytes() == old(f.Bytes())
    ensures |old(f.Bytes())| >= ETH_HLEN + IPV4_HDR_LEN + ICMP_HDR_LEN ==>
      action == Transmit && f.Bytes() == Reply(old(f.Bytes()))
  {
    if ETH_HLEN + IPV4_HDR_LEN + ICMP_HDR_LEN > f.end - f.head {
      return Drop;
    }
    hide Retyped, ReplyHeader, SwapMac, Patch;
    ghost var b := f.Bytes();
    ghost var h, m := ReplyHeader(b[14..34]), ReplyMessage(b[34..]);
    Retype(f, 34, ICMP_ECHOREPLY, 8);
    MiddleBytes(b, 34, h, m);
    Readdress(f);
    action := SwapMacAndSend(f);
    Associate(SwapMac(b[..14]), h, m);
  }

  lemma Associate(a: seq<byte>, b: seq<byte>, c: seq<byte>)
    ensures a + b + c == a + (b + c)
  {
  }

  method SendIcmp6Reply(f: Frame) returns (action: Action)
    requires f.Valid()
    modifies f.buf
    ensures f.Room() == old(f.Room())
    ensures |old(f.Bytes())| < ETH_HLEN + IPV6_HDR_LEN + ICMP_HDR_LEN ==> action == Drop && f.Bytes() == old(f.Bytes())
    ensures |old(f.Bytes())| >= ETH_HLEN + IPV6_HDR_LEN + ICMP_HDR_LEN ==>
      action == Transmit && f.Bytes() == Reply6(old(f.Bytes()))
  {
    if ETH_HLEN + IPV6_HDR_LEN + ICMP_HDR_LEN > f.end - f.head {
      return Drop;
    }
    hide Retyped, ReplyHeader6, SwapMac, Patch;
    ghost var b := f.Bytes();
    ghost var h, m := ReplyHeader6(b[14..54]), ReplyMessage6(b[54..]);
    Retype(f, 54, ICMPV6_ECHO_REPLY, -1);
    MiddleBytes(b, 54, h, m);
    Readdress6(f);
    action := SwapMacAndSend(f);
    Associate(SwapMac(b[..14]), h, m);
  }

  method Readdress6(f: Frame)
    requires f.Valid() && ETH_HLEN + IPV6_HDR_LEN <= f.end - f.head
    modifies f.buf
    ensures f.Room() == old(f.Room())
    ensures f.Bytes() == Patch(old(f.Bytes()), 14, ReplyHeader6(old(f.Bytes())[14..54]))
  {
    ghost var b := f.Bytes();
    var saddr := f.Get(22, 16);
    var daddr := f.Get(38, 16);
    hide Patch, ReplyHeader6;
    f.Put(21, [DEFAULT_TTL]);
    f.Put(22, daddr);
    f.Put(38, saddr);
    ReaddressedBytes6(b);
  }

  lemma ReaddressedBytes6(b: seq<byte>)
    requires |b| >= ETH_HLEN + IPV6_HDR_LEN
    ensures Patch(Patch(Patch(b, 21, [DEFAULT_TTL]), 22, b[38..54]), 38, b[22..38]) ==
      Patch(b, 14, ReplyHeader6(b[14..54]))
  {
  }
}
