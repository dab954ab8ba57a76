/** Encapsulation and decapsulation in the packet buffer (pckt_encap.h). */
module Encap {
  import opened Bytes
  import opened Frames
  import opened Checksum
  import opened Headers

  const ETH_P_IP: seq<byte> := [0x08, 0x00]
  const ETH_P_IPV6: seq<byte> := [0x86, 0xDD]
  const IPPROTO_IPIP: byte := 4
  const IPPROTO_IPV6: byte := 41

  type Mac = b: seq<byte> | |b| == 6 witness [0, 0, 0, 0, 0, 0]

  /** What encapsulation needs of a parsed packet: the address union, of which IPv4 uses the first word. */
  datatype Description = Description(src: Ipv6Bytes, sport: seq<byte>, tos: byte, pktBytes: u16)

  predicate Described(d: Description) {
    |d.sport| == 2
  }

  function Xor(a: byte, b: byte): byte {
    ((a as bv8) ^ (b as bv8)) as int
  }

  /** 172.16 and the low half of the client address mixed with its swapped port. */
  function OuterSource4(d: Description): Ipv4Bytes
    requires Described(d)
  {
    [172, 16, Xor(d.src[2], d.sport[1]), Xor(d.src[3], d.sport[0])]
  }

  /** 0100::/64 and the last word of the client address mixed with its port. */
  function OuterSource6(d: Description, isIpv6: bool): Ipv6Bytes
    requires Described(d)
  {
    var word := if isIpv6 then d.src[12..16] else d.src[0..4];
    [1, 0, 0, 0, 0, 0, 0, 0, 0, 0, 0, 0, Xor(word[0], d.sport[0]), Xor(word[1], d.sport[1]), word[2], word[3]]
  }

  function OuterV4(d: Description, dst: Ipv4Bytes, id: seq<byte>): V4
    requires Described(d)
  {
    V4(d.tos, (d.pktBytes + IPV4_HDR_LEN) % U16, id, IPPROTO_IPIP, OuterSource4(d), dst)
  }

  function OuterV6(d: Description, isIpv6: bool, dst: Ipv6Bytes): V6
    requires Described(d)
  {
    if isIpv6 then V6(d.tos, (d.pktBytes + IPV6_HDR_LEN) % U16, IPPROTO_IPV6, OuterSource6(d, isIpv6), dst)
    else V6(d.tos, d.pktBytes, IPPROTO_IPIP, OuterSource6(d, isIpv6), dst)
  }

  /** Frame with the outer IPv4 header, where `id` was lying in the headroom. */
  function Encapsulated4(b: seq<byte>, mac: Mac, d: Description, dst: Ipv4Bytes, id: seq<byte>): (r: seq<byte>)
    requires |b| >= ETH_HLEN && Described(d) && |id| == 2
    ensures |r| == |b| + IPV4_HDR_LEN
  {
    mac + b[0..6] + ETH_P_IP + V4Bytes(OuterV4(d, dst, id)) + b[14..]
  }

  function Encapsulated6(b: seq<byte>, mac: Mac, d: Description, isIpv6: bool, dst: Ipv6Bytes): (r: seq<byte>)
    requires |b| >= ETH_HLEN && Described(d)
    ensures |r| == |b| + IPV6_HDR_LEN
  {
    mac + b[0..6] + ETH_P_IPV6 + V6Bytes(OuterV6(d, isIpv6, dst)) + b[14..]
  }

  // ---------------------------------------------------------------------
  // In place
  // ---------------------------------------------------------------------

  /** Room of `n` bytes, then the packet: with the Ethernet header of the packet moved to the front and readdressed. */
  ghost function NewEth(all: seq<byte>, n: nat, mac: Mac, kind: seq<byte>): (r: seq<byte>)
    requires ETH_HLEN <= n && n + ETH_HLEN <= |all| && |kind| == 2
    ensures |r| == |all|
  {
    mac + all[n..n + 6] + kind + all[14..]
  }

  method WriteEth(f: Frame, n: nat, mac: Mac, kind: seq<byte>)
    requires f.Valid() && ETH_HLEN <= n && n + ETH_HLEN <= f.end - f.head && |kind| == 2
    modifies f.buf
    ensures f.Room() == old(f.Room()) && f.Bytes() == NewEth(old(f.Bytes()), n, mac, kind)
  {
    ghost var all := f.Bytes();
    f.Put(0, mac);
    assert f.Bytes()[n..n + 6] == all[n..n + 6];
    hide Patch;
    var dest := f.Get(n, 6);
    f.Put(6, dest);
    f.Put(12, kind);
    NewEthBytes(all, mac, dest, kind);
  }

  lemma NewEthBytes(all: seq<byte>, mac: Mac, dest: Mac, kind: seq<byte>)
    requires |all| >= ETH_HLEN && |kind| == 2
    ensures Patch(Patch(Patch(all, 0, mac), 6, dest), 12, kind) == mac + dest + kind + all[14..]
  {
  }

  /** The outer header, written over the old Ethernet header, leaves the inner packet alone. */
  lemma OuterBytes(room: seq<byte>, b: seq<byte>, mac: Mac, kind: seq<byte>, h: seq<byte>)
    requires |room| == |h| >= 20 && |b| >= ETH_HLEN && |kind| == 2
    ensures NewEth(room + b, |room|, mac, kind)[18..20] == room[18..20]
    ensures Patch(NewEth(room + b, |room|, mac, kind), 14, h) == mac + b[0..6] + kind + h + b[14..]
  {
    var n, all := |room|, room + b;
    var eth := mac + b[0..6] + kind;
    assert all[n..n + 6] == b[0..6];
    var s := NewEth(all, n, mac, kind);
    assert s == eth + all[14..];
    assert s[18] == all[18] && s[19] == all[19];
    assert s[..14] == eth && s[14 + n..] == all[14 + n..] == b[14..];
  }

  method EncapV4(f: Frame, mac: Mac, d: Description, dst: Ipv4Bytes) returns (ok: bool)
    requires f.Valid() && Described(d)
    modifies f`head, f.buf
    ensures f.Valid() && (ok <==> old(f.head) >= IPV4_HDR_LEN && |old(f.Bytes())| >= ETH_HLEN)
    ensures ok ==> f.Bytes() == Encapsulated4(old(f.Bytes()), mac, d, dst, old(f.Room())[old(f.head) - 2..])
  {
    ghost var b, room := f.Bytes(), if f.head >= 20 then f.Room()[f.head - 20..] else [];
    ok := f.AdjustHead(-20);
    if !ok {
      return;
    }
    if 34 > f.end - f.head {
      return false;
    }
    assert f.Bytes() == room + b && room[18..20] == old(f.Room())[old(f.head) - 2..];
    WriteOuter4(f, mac, d, dst, room, b);
  }

  method WriteOuter4(f: Frame, mac: Mac, d: Description, dst: Ipv4Bytes, ghost room: seq<byte>, ghost b: seq<byte>)
    requires f.Valid() && Described(d) && |b| >= ETH_HLEN && |room| == IPV4_HDR_LEN && f.Bytes() == room + b
    modifies f.buf
    ensures f.Bytes() == Encapsulated4(b, mac, d, dst, room[18..20])
  {
    ghost var h := OuterV4(d, dst, room[18..20]);
    OuterBytes(room, b, mac, ETH_P_IP, V4Bytes(h));
    assert Encapsulated4(b, mac, d, dst, room[18..20]) == Patch(NewEth(room + b, 20, mac, ETH_P_IP), 14, V4Bytes(h));
    hide Patch, V4Bytes, NewEth, OuterSource4, Encapsulated4;
    WriteEth(f, IPV4_HDR_LEN, mac, ETH_P_IP);
    assert h == V4(d.tos, (d.pktBytes + IPV4_HDR_LEN) % U16, f.Bytes()[18..20], IPPROTO_IPIP, OuterSource4(d), dst);
    CreateV4Hdr(f, 14, d.tos, OuterSource4(d), dst, d.pktBytes, IPPROTO_IPIP);
  }

  method EncapV6(f: Frame, mac: Mac, isIpv6: bool, d: Description, dst: Ipv6Bytes) returns (ok: bool)
    requires f.Valid() && Described(d)
    modifies f`head, f.buf
    ensures f.Valid() && (ok <==> old(f.head) >= IPV6_HDR_LEN && |old(f.Bytes())| >= ETH_HLEN)
    ensures ok ==> f.Bytes() == Encapsulated6(old(f.Bytes()), mac, d, isIpv6, dst)
  {
    ghost var b, room := f.Bytes(), if f.head >= 40 then f.Room()[f.head - 40..] else [];
    ok := f.AdjustHead(-40);
    if !ok {
      return;
    }
    if 54 > f.end - f.head {
      return false;
    }
    assert f.Bytes() == room + b;
    WriteOuter6(f, mac, isIpv6, d, dst, room, b);
  }

  method WriteOuter6(f: Frame, mac: Mac, isIpv6: bool, d: Description, dst: Ipv6Bytes, ghost room: seq<byte>,
      ghost b: seq<byte>)
    requires f.Valid() && Described(d) && |b| >= ETH_HLEN && |room| == IPV6_HDR_LEN && f.Bytes() == room + b
    modifies f.buf
    ensures f.Bytes() == Encapsulated6(b, mac, d, isIpv6, dst)
  {
    OuterBytes(room, b, mac, ETH_P_IPV6, V6Bytes(OuterV6(d, isIpv6, dst)));
    hide Patch, V6Bytes, NewEth, OuterSource6;
    WriteEth(f, IPV6_HDR_LEN, mac, ETH_P_IPV6);
    var proto, payloadLen;
    if isIpv6 {
      proto, payloadLen := IPPROTO_IPV6, (d.pktBytes + IPV6_HDR_LEN) % U16;
    } else {
      proto, payloadLen := IPPROTO_IPIP, d.pktBytes;
    }
    CreateV6Hdr(f, 14, d.tos, OuterSource6(d, isIpv6), dst, payloadLen, proto);
  }

  // ---------------------------------------------------------------------
  // Decapsulation
  // ---------------------------------------------------------------------

  /** The frame without the `n` bytes after the Ethernet header, which gets the type. */
  function Stripped(b: seq<byte>, n: nat, kind: seq<byte>): (r: seq<byte>)
    requires |b| >= n + ETH_HLEN && |kind| == 2
    ensures |r| == |b| - n
  {
    b[..12] + kind + b[14 + n..]
  }

  /** Moves the Ethernet header over the outer header's last bytes and the head up to it. */
  method Strip(f: Frame, n: nat, kind: seq<byte>) returns (ok: bool)
    requires f.Valid() && ETH_HLEN <= n && n + ETH_HLEN <= f.end - f.head && |kind| == 2
    modifies f`head, f.buf
    ensures f.Valid() && ok && f.Bytes() == Stripped(old(f.Bytes()), n, kind)
  {
    ghost var b := f.Bytes();
    StrippedBytes(b, n, kind);
    var source := f.Get(6, 6);
    f.Put(n + 6, source);
    assert f.Bytes()[0..6] == b[0..6];
    hide Patch, Stripped;
    var dest := f.Get(0, 6);
    f.Put(n, dest);
    f.Put(n + 12, kind);
    ok := f.AdjustHead(n);
  }

  lemma StrippedBytes(b: seq<byte>, n: nat, kind: seq<byte>)
    requires |b| >= n + ETH_HLEN && |kind| == 2 && ETH_HLEN <= n
    ensures Patch(Patch(Patch(b, n + 6, b[6..12]), n, b[0..6]), n + 12, kind)[n..] == Stripped(b, n, kind)
  {
    var c := Patch(b, n + 6, b[6..12]);
    assert c[n + 6..n + 12] == b[6..12] && c[n + 12..] == b[n + 12..];
    var d := Patch(c, n, b[0..6]);
    assert d[n..n + 12] == b[0..6] + b[6..12] == b[..12] && d[n + 12..] == b[n + 12..];
    var e := Patch(d, n + 12, kind);
    assert e[n..n + 12] == d[n..n + 12] && e[n + 12..n + 14] == kind && e[n + 14..] == b[n + 14..];
    assert e[n..] == e[n..n + 12] + e[n + 12..n + 14] + e[n + 14..];
  }

  method DecapV4(f: Frame) returns (ok: bool)
    requires f.Valid() && IPV4_HDR_LEN + ETH_HLEN <= f.end - f.head
    modifies f`head, f.buf
    ensures f.Valid() && ok && f.Bytes() == Stripped(old(f.Bytes()), IPV4_HDR_LEN, ETH_P_IP)
  {
    ok := Strip(f, IPV4_HDR_LEN, ETH_P_IP);
  }

  method DecapV6(f: Frame, innerV4: bool) returns (ok: bool)
    requires f.Valid() && IPV6_HDR_LEN + ETH_HLEN <= f.end - f.head
    modifies f`head, f.buf
    ensures f.Valid() && ok &&
      f.Bytes() == Stripped(old(f.Bytes()), IPV6_HDR_LEN, if innerV4 then ETH_P_IP else ETH_P_IPV6)
  {
    ok := Strip(f, IPV6_HDR_LEN, if innerV4 then ETH_P_IP else ETH_P_IPV6);
  }
}
