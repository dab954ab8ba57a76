/** The decapsulation program (decap_kern.c), and that it undoes the load balancer's encapsulation. */
module Decap {
  import opened Bytes
  import opened Frames
  import opened Checksum
  import opened Headers
  import opened Encap

  const IPPROTO_FRAGMENT: byte := 44

  /** More fragments, or a fragment offset; the mask is applied to a little-endian word. */
  predicate Fragmented(a: byte, b: byte) {
    a % 64 != 0 || b != 0
  }

  /** Whether the network header is one the program goes on with. */
  predicate Parses(b: seq<byte>, isIpv6: bool) {
    if isIpv6 then |b| >= 54 && b[20] != IPPROTO_FRAGMENT
    else |b| >= 34 && b[14] % 16 == 5 && !Fragmented(b[20], b[21])
  }

  function Protocol(b: seq<byte>, isIpv6: bool): byte
    requires Parses(b, isIpv6)
  {
    if isIpv6 then b[20] else b[23]
  }

  /** An IPv6 payload is always taken to follow a 40-byte header, whatever the outer header is. */
  function Processed(b: seq<byte>, isIpv6: bool): (Action, seq<byte>) {
    if !Parses(b, isIpv6) then (Drop, b)
    else if Protocol(b, isIpv6) == IPPROTO_IPIP then
      (Pass, Stripped(b, if isIpv6 then IPV6_HDR_LEN else IPV4_HDR_LEN, ETH_P_IP))
    else if Protocol(b, isIpv6) == IPPROTO_IPV6 then
      if |b| < 54 then (Drop, b) else (Pass, Stripped(b, IPV6_HDR_LEN, ETH_P_IPV6))
    else (Pass, b)
  }

  function Decapsulate(b: seq<byte>): (Action, seq<byte>) {
    if |b| < ETH_HLEN then (Drop, b)
    else if b[12..14] == ETH_P_IP then Processed(b, false)
    else if b[12..14] == ETH_P_IPV6 then Processed(b, true)
    else (Pass, b)
  }

  class DecapProgram {
    var total: nat
    var decapV4: nat
    var decapV6: nat

    constructor ()
      ensures total == decapV4 == decapV6 == 0
    {
      total, decapV4, decapV6 := 0, 0, 0;
    }

    method ProcessL3Headers(f: Frame, isIpv6: bool) returns (action: Action, protocol: byte)
      requires f.Valid() && f.end - f.head >= ETH_HLEN
      ensures action == if Parses(f.Bytes(), isIpv6) then Further else Drop
      ensures Parses(f.Bytes(), isIpv6) ==> protocol == Protocol(f.Bytes(), isIpv6)
    {
      if isIpv6 {
        if 54 > f.end - f.head {
          return Drop, 0;
        }
        var next := f.Get(20, 1);
        return if next[0] == IPPROTO_FRAGMENT then Drop else Further, next[0];
      }
      if 34 > f.end - f.head {
        return Drop, 0;
      }
      var h := f.Get(14, 10);
      if h[0] % 16 != 5 {
        return Drop, 0;
      }
      return if Fragmented(h[6], h[7]) then Drop else Further, h[9];
    }

    method ProcessEncapedPckt(f: Frame, isIpv6: bool, protocol: byte) returns (action: Action)
      requires f.Valid() && Parses(f.Bytes(), isIpv6) && protocol == Protocol(f.Bytes(), isIpv6)
      requires protocol == IPPROTO_IPIP || protocol == IPPROTO_IPV6
      modifies f`head, f.buf
      ensures f.Valid()
      ensures
        var (verdict, after) := Processed(old(f.Bytes()), isIpv6);
        f.Bytes() == after && action == if verdict == Pass then Further else verdict
    {
      hide Stripped;
      var ok;
      if protocol == IPPROTO_IPIP {
        if isIpv6 {
          ok := DecapV6(f, true);
        } else {
          ok := DecapV4(f);
        }
      } else {
        if IPV6_HDR_LEN + ETH_HLEN > f.end - f.head {
          return Drop;
        }
        ok := DecapV6(f, false);
      }
      return if ok then Further else Drop;
    }

    method ProcessPacket(f: Frame, isIpv6: bool) returns (action: Action)
      requires f.Valid() && f.end - f.head >= ETH_HLEN
      modifies this, f`head, f.buf
      ensures f.Valid() && (action, f.Bytes()) == Processed(old(f.Bytes()), isIpv6)
      ensures
        var b := old(f.Bytes());
        var parsed := Parses(b, isIpv6);
        var tunnelled := parsed && Protocol(b, isIpv6) in {IPPROTO_IPIP, IPPROTO_IPV6};
        && total == old(total) + (if parsed then 1 else 0)
        && decapV4 == old(decapV4) + (if tunnelled && !isIpv6 then 1 else 0)
        && decapV6 == old(decapV6) + (if tunnelled && isIpv6 then 1 else 0)
    {
      var protocol;
      action, protocol := ProcessL3Headers(f, isIpv6);
      if action != Further {
        return;
      }
      hide Stripped, Parses;
      total := total + 1;
      if protocol == IPPROTO_IPIP || protocol == IPPROTO_IPV6 {
        if isIpv6 {
          decapV6 := decapV6 + 1;
        } else {
          decapV4 := decapV4 + 1;
        }
        action := ProcessEncapedPckt(f, isIpv6, protocol);
        if action != Further {
          return;
        }
      }
      return Pass;
    }

    method XdpDecap(f: Frame) returns (action: Action)
      requires f.Valid()
      modifies this, f`head, f.buf
      ensures f.Valid() && (action, f.Bytes()) == Decapsulate(old(f.Bytes()))
    {
      hide Processed;
      if ETH_HLEN > f.end - f.head {
        return Drop;
      }
      var kind := f.Get(12, 2);
      if kind == ETH_P_IP {
        action := ProcessPacket(f, false);
      } else if kind == ETH_P_IPV6 {
        action := ProcessPacket(f, true);
      } else {
        action := Pass;
      }
    }
  }

  // ---------------------------------------------------------------------
  // The round trip
  // ---------------------------------------------------------------------

  /** A header between Ethernet addresses with type, and the rest. */
  lemma Layers(macs: seq<byte>, kind: seq<byte>, h: seq<byte>, rest: seq<byte>, other: seq<byte>)
    requires |macs| == 12 && |kind| == 2 && |other| == 2
    ensures var b := macs + kind + h + rest;
      && b[12..14] == kind && b[14..14 + |h|] == h && (forall k :: 0 <= k < |h| ==> b[14 + k] == h[k])
      && Stripped(b, |h|, other) == macs + other + rest
  {
  }

  /** The frame the real's kernel gets: addresses of the tunnel, the type, and the client's IP packet. */
  function Delivered(b: seq<byte>, mac: Mac, kind: seq<byte>): seq<byte>
    requires |b| >= ETH_HLEN
  {
    mac + b[0..6] + kind + b[14..]
  }

  lemma DecapUndoesEncap4(b: seq<byte>, mac: Mac, d: Description, dst: Ipv4Bytes, id: seq<byte>)
    requires |b| >= ETH_HLEN && Described(d) && |id| == 2
    ensures Decapsulate(Encapsulated4(b, mac, d, dst, id)) == (Pass, Delivered(b, mac, ETH_P_IP))
  {
    var h := V4Bytes(OuterV4(d, dst, id));
    V4Fields(OuterV4(d, dst, id));
    hide V4Bytes, Stripped, OuterSource4;
    Layers(mac + b[0..6], ETH_P_IP, h, b[14..], ETH_P_IP);
    var e := Encapsulated4(b, mac, d, dst, id);
    assert e[14] == h[0] && e[20] == h[6] && e[21] == h[7] && e[23] == h[9];
  }

  lemma DecapUndoesEncap6(b: seq<byte>, mac: Mac, d: Description, isIpv6: bool, dst: Ipv6Bytes)
    requires |b| >= ETH_HLEN && Described(d)
    ensures Decapsulate(Encapsulated6(b, mac, d, isIpv6, dst))
         == (Pass, Delivered(b, mac, if isIpv6 then ETH_P_IPV6 else ETH_P_IP))
  {
    var h := V6Bytes(OuterV6(d, isIpv6, dst));
    V6Fields(OuterV6(d, isIpv6, dst));
    hide V6Bytes, Stripped, OuterSource6;
    Layers(mac + b[0..6], ETH_P_IPV6, h, b[14..], if isIpv6 then ETH_P_IPV6 else ETH_P_IP);
    var e := Encapsulated6(b, mac, d, isIpv6, dst);
    assert e[20] == h[6];
  }

  /** What is delivered is the client's packet, with its own type exactly when that is the type set. */
  lemma DeliveredBytes(b: seq<byte>, mac: Mac, kind: seq<byte>)
    requires |b| >= ETH_HLEN && |kind| == 2
    ensures Delivered(b, mac, kind)[14..] == b[14..]
    ensures Delivered(b, mac, kind)[12..] == b[12..] <==> b[12..14] == kind
  {
    var r := Delivered(b, mac, kind);
    assert r[12..] == kind + b[14..] && b[12..] == b[12..14] + b[14..];
    assert r[12..14] == r[12..][..2] && b[12..14] == b[12..][..2];
  }

  /**
   What the program strips is exactly the outer header, except that an IPv6 packet in an
   IPv4 header loses its own first 20 bytes as well.
   */
  lemma StripsOuterHeaderIff(b: seq<byte>, isIpv6: bool)
    requires Parses(b, isIpv6) && Protocol(b, isIpv6) in {IPPROTO_IPIP, IPPROTO_IPV6}
    requires Processed(b, isIpv6).0 == Pass
    ensures Processed(b, isIpv6).1[14..] == b[14 + (if isIpv6 then IPV6_HDR_LEN else IPV4_HDR_LEN)..]
      <==> isIpv6 || Protocol(b, isIpv6) == IPPROTO_IPIP
  {
  }
}
