/** The outer headers (encap_helpers.h) and the incremental update of an inner one (balancer_helpers.h). */
module Headers {
  import opened Bytes
  import opened Frames
  import opened Checksum

  const IPV6_HDR_LEN: nat := 40
  const DEFAULT_TTL: nat := 64
  const CHECK: nat := 10
  const TTL: nat := 8

  /** An address as it lies in a packet. */
  type Ipv4Bytes = b: seq<byte> | |b| == 4 witness [0, 0, 0, 0]
  type Ipv6Bytes = b: seq<byte> | |b| == 16 witness [0, 0, 0, 0, 0, 0, 0, 0, 0, 0, 0, 0, 0, 0, 0, 0]

  // ---------------------------------------------------------------------
  // create_v4_hdr
  // ---------------------------------------------------------------------

  datatype V4 = V4(tos: byte, len: u16, id: seq<byte>, proto: byte, saddr: Ipv4Bytes, daddr: Ipv4Bytes)

  function V4Front(tos: byte, len: u16): (b: seq<byte>)
    ensures |b| == 4
  {
    [0x45, tos] + PutBe16(len)
  }

  function V4Back(proto: byte, saddr: Ipv4Bytes, daddr: Ipv4Bytes): (b: seq<byte>)
    ensures |b| == 14
  {
    [0, 0, DEFAULT_TTL, proto, 0, 0] + saddr + daddr
  }

  function V4Zeroed(h: V4): (b: seq<byte>)
    requires |h.id| == 2
    ensures |b| == IPV4_HDR_LEN && b[CHECK..CHECK + 2] == [0, 0]
  {
    V4Front(h.tos, h.len) + h.id + V4Back(h.proto, h.saddr, h.daddr)
  }

  function V4Bytes(h: V4): (b: seq<byte>)
    requires |h.id| == 2
    ensures |b| == IPV4_HDR_LEN
  {
    Patch(V4Zeroed(h), CHECK, PutLe16(CheckOf(V4Zeroed(h))))
  }

  /** Every header verifies, in network order too, whatever the identification bytes hold. */
  lemma V4HeaderVerifies(h: V4)
    requires |h.id| == 2
    ensures Verifies(WordSum(V4Bytes(h))) && Verifies(NetworkSum(V4Bytes(h)))
  {
    CheckMakesValid(V4Zeroed(h), CHECK);
    ByteOrderIndependent(V4Bytes(h));
  }

  lemma V4Fields(h: V4)
    requires |h.id| == 2
    ensures var b := V4Bytes(h);
      && b[0] == 0x45 && b[1] == h.tos && Be16(b, 2) == h.len && b[4..6] == h.id && b[6] == 0 && b[7] == 0
      && b[8] == DEFAULT_TTL && b[9] == h.proto && b[12..16] == h.saddr && b[16..20] == h.daddr
  {
    hide CheckOf, PutLe16, PutBe16;
    var z, b := V4Zeroed(h), V4Bytes(h);
    assert b[..10] == z[..10] && b[12..] == z[12..];
    assert forall k :: 0 <= k < 10 ==> b[k] == b[..10][k] == z[k];
    assert b[12..16] == z[12..16] == h.saddr && b[16..20] == z[16..20] == h.daddr;
    assert z[2] == PutBe16(h.len)[0] && z[3] == PutBe16(h.len)[1];
  }

  /** Fields are written in place; the identification field is not written at all. */
  method CreateV4Hdr(f: Frame, o: nat, tos: byte, saddr: Ipv4Bytes, daddr: Ipv4Bytes, pktBytes: u16, proto: byte)
    requires f.Valid() && o + IPV4_HDR_LEN <= f.end - f.head
    modifies f.buf
    ensures f.Room() == old(f.Room())
    ensures f.Bytes() == Patch(old(f.Bytes()), o,
      V4Bytes(V4(tos, (pktBytes + IPV4_HDR_LEN) % U16, old(f.Bytes())[o + 4..o + 6], proto, saddr, daddr)))
  {
    ghost var b := f.Bytes();
    var len := (pktBytes + IPV4_HDR_LEN) % U16;
    ghost var h := V4(tos, len, b[o + 4..o + 6], proto, saddr, daddr);
    WriteV4Front(f, o, tos, len);
    WriteV4Back(f, o + 6, proto, saddr, daddr);
    hide V4Front, V4Back, CheckOf, PutLe16;
    PatchJoin(b, o, V4Front(tos, len), o + 6, V4Back(proto, saddr, daddr));
    assert f.Bytes() == Patch(b, o, V4Zeroed(h));
    PatchReads(b, o, V4Zeroed(h));
    var csum := Ipv4CsumInline(f, o);
    f.Put(o + CHECK, PutLe16(csum));
    PatchInside(b, o, V4Zeroed(h), CHECK, PutLe16(csum));
  }

  lemma PatchInside(s: seq<byte>, at: nat, a: seq<byte>, k: nat, b: seq<byte>)
    requires at + |a| <= |s| && k + |b| <= |a|
    ensures Patch(Patch(s, at, a), at + k, b) == Patch(s, at, Patch(a, k, b))
  {
  }

  method WriteV4Front(f: Frame, o: nat, tos: byte, len: u16)
    requires f.Valid() && o + 4 <= f.end - f.head
    modifies f.buf
    ensures f.Room() == old(f.Room()) && f.Bytes() == Patch(old(f.Bytes()), o, V4Front(tos, len))
  {
    hide PutBe16;
    ghost var b := f.Bytes();
    f.Put(o, [0x45]);
    f.Put(o + 1, [tos]);
    f.Put(o + 2, PutBe16(len));
    PatchJoin(b, o, [0x45], o + 1, [tos]);
    PatchJoin(b, o, [0x45] + b[o + 1..o + 1] + [tos], o + 2, PutBe16(len));
    assert [0x45] + b[o + 1..o + 1] + [tos] + b[o + 2..o + 2] + PutBe16(len) == V4Front(tos, len);
  }

  method WriteV4Back(f: Frame, o: nat, proto: byte, saddr: Ipv4Bytes, daddr: Ipv4Bytes)
    requires f.Valid() && o + 14 <= f.end - f.head
    modifies f.buf
    ensures f.Room() == old(f.Room()) && f.Bytes() == Patch(old(f.Bytes()), o, V4Back(proto, saddr, daddr))
  {
    ghost var b := f.Bytes();
    f.Put(o, [0, 0]);
    f.Put(o + 2, [DEFAULT_TTL]);
    f.Put(o + 3, [proto]);
    f.Put(o + 4, [0, 0]);
    f.Put(o + 6, saddr);
    f.Put(o + 10, daddr);
    PatchJoin(b, o, [0, 0], o + 2, [DEFAULT_TTL]);
    PatchJoin(b, o, [0, 0] + b[o + 2..o + 2] + [DEFAULT_TTL], o + 3, [proto]);
    assert [0, 0] + b[o + 2..o + 2] + [DEFAULT_TTL] + b[o + 3..o + 3] + [proto] == [0, 0, DEFAULT_TTL, proto];
    PatchJoin(b, o, [0, 0, DEFAULT_TTL, proto], o + 4, [0, 0]);
    assert [0, 0, DEFAULT_TTL, proto] + b[o + 4..o + 4] + [0, 0] == [0, 0, DEFAULT_TTL, proto, 0, 0];
    PatchJoin(b, o, [0, 0, DEFAULT_TTL, proto, 0, 0], o + 6, saddr);
    PatchJoin(b, o, [0, 0, DEFAULT_TTL, proto, 0, 0] + b[o + 6..o + 6] + saddr, o + 10, daddr);
    assert [0, 0, DEFAULT_TTL, proto, 0, 0] + b[o + 6..o + 6] + saddr + b[o + 10..o + 10] + daddr ==
      V4Back(proto, saddr, daddr);
  }

  // ---------------------------------------------------------------------
  // create_v6_hdr
  // ---------------------------------------------------------------------

  datatype V6 = V6(tc: byte, len: u16, proto: byte, saddr: Ipv6Bytes, daddr: Ipv6Bytes)

  /** The traffic class is split over the first two bytes; the rest of the flow label is zero. */
  function V6Front(tc: byte): (b: seq<byte>)
    ensures |b| == 4
  {
    [0x60 + tc / 16, tc % 16 * 16, 0, 0]
  }

  function V6Bytes(h: V6): (b: seq<byte>)
    ensures |b| == IPV6_HDR_LEN
  {
    V6Front(h.tc) + PutBe16(h.len) + [h.proto, DEFAULT_TTL] + h.saddr + h.daddr
  }

  /** The traffic class as the receiving side reads it. */
  function TrafficClass(b: seq<byte>): byte
    requires |b| >= 2
  {
    b[0] % 16 * 16 + b[1] / 16
  }

  lemma V6Fields(h: V6)
    ensures var b := V6Bytes(h);
      && b[0] / 16 == 6 && TrafficClass(b) == h.tc && Be16(b, 4) == h.len && b[6] == h.proto
      && b[7] == DEFAULT_TTL && b[8..24] == h.saddr && b[24..40] == h.daddr
  {
  }

  method CreateV6Hdr(f: Frame, o: nat, tc: byte, saddr: Ipv6Bytes, daddr: Ipv6Bytes, len: u16, proto: byte)
    requires f.Valid() && o + IPV6_HDR_LEN <= f.end - f.head
    modifies f.buf
    ensures f.Room() == old(f.Room())
    ensures f.Bytes() == Patch(old(f.Bytes()), o, V6Bytes(V6(tc, len, proto, saddr, daddr)))
  {
    hide PutBe16, V6Front;
    ghost var b := f.Bytes();
    f.Put(o, V6Front(tc));
    f.Put(o + 4, PutBe16(len));
    f.Put(o + 6, [proto, DEFAULT_TTL]);
    f.Put(o + 8, saddr);
    f.Put(o + 24, daddr);
    PatchJoin(b, o, V6Front(tc), o + 4, PutBe16(len));
    ghost var front := V6Front(tc) + b[o + 4..o + 4] + PutBe16(len);
    PatchJoin(b, o, front, o + 6, [proto, DEFAULT_TTL]);
    front := front + b[o + 6..o + 6] + [proto, DEFAULT_TTL];
    PatchJoin(b, o, front, o + 8, saddr);
    front := front + b[o + 8..o + 8] + saddr;
    PatchJoin(b, o, front, o + 24, daddr);
    assert front + b[o + 24..o + 24] + daddr == V6Bytes(V6(tc, len, proto, saddr, daddr));
  }

  // ---------------------------------------------------------------------
  // decrement_ttl
  // ---------------------------------------------------------------------

  /** An 8-bit field less one. */
  function Pred(x: byte): byte {
    if x == 0 then 255 else x - 1
  }

  /** One added to a checksum with end-around carry. */
  function Increment(check: u16): (r: u16)
    ensures r == if check == ONES then 1 else check + 1
  {
    var sum: nat := check + 1;
    sum % U16 + sum / U16
  }

  /** The IPv4 header after the update; the checksum follows only when the time to live did not reach zero. */
  function Decremented(h: seq<byte>): (r: seq<byte>)
    requires |h| >= IPV4_HDR_LEN
    ensures |r| == |h|
  {
    var t := h[TTL := Pred(h[TTL])];
    if h[TTL] == 1 then t else Patch(t, CHECK, PutLe16(Increment(Le16(h, CHECK))))
  }

  lemma TtlWord(h: seq<byte>, t: seq<byte>)
    requires |h| == |t| >= IPV4_HDR_LEN && t == h[TTL := t[TTL]]
    ensures WordSum(t) == WordSum(h) - h[TTL] + t[TTL]
  {
    hide WordSum;
    assert t == Patch(h, TTL, t[TTL..TTL + 2]);
    WordSumPatch(h, TTL, t[TTL..TTL + 2]);
    WordSumWord(h[TTL..TTL + 2]);
    WordSumWord(t[TTL..TTL + 2]);
  }

  lemma CheckWord(t: seq<byte>, check: u16)
    requires |t| >= CHECK + 2
    ensures WordSum(Patch(t, CHECK, PutLe16(check))) == WordSum(t) - Le16(t, CHECK) + check
  {
    hide WordSum, Le16, PutLe16;
    WordSumPatch(t, CHECK, PutLe16(check));
    WordSumWord(t[CHECK..CHECK + 2]);
    WordSumWord(PutLe16(check));
    LeAt(t, CHECK, t[CHECK..CHECK + 2], 0);
  }

  /** What the two fields change the sum by. */
  lemma UpdateVerifies(sum: nat, ttl: byte, check: u16, after: nat)
    requires Verifies(sum) && ttl != 1 && after > 0
    requires after == sum + Pred(ttl) - ttl + Increment(check) - check
    ensures Verifies(after) <==> ttl >= 2
  {
  }

  /** A forwarded header stays valid exactly when its time to live was not already zero. */
  lemma DecrementKeepsValid(h: seq<byte>)
    requires |h| >= IPV4_HDR_LEN && Verifies(WordSum(h)) && h[TTL] != 1
    ensures Verifies(WordSum(Decremented(h))) <==> h[TTL] >= 2
  {
    var t := h[TTL := Pred(h[TTL])];
    var check := Le16(h, CHECK);
    TtlWord(h, t);
    CheckWord(t, Increment(check));
    LeAt(h, CHECK, t, CHECK);
    WordSumHas(t, Increment(check));
    hide WordSum, Le16, PutLe16, Verifies, Increment;
    UpdateVerifies(WordSum(h), h[TTL], check, WordSum(Decremented(h)));
  }

  lemma WordSumHas(t: seq<byte>, check: u16)
    requires |t| >= CHECK + 2
    ensures WordSum(Patch(t, CHECK, PutLe16(check))) >= check
  {
    hide WordSum, Le16, PutLe16;
    var b := PutLe16(check);
    assert Patch(t, CHECK, b) == t[..CHECK] + (b + t[CHECK + 2..]);
    WordSumConcat(t[..CHECK], b + t[CHECK + 2..]);
    WordSumConcat(b, t[CHECK + 2..]);
    WordSumWord(b);
  }

  method DecrementTtl(f: Frame, offset: nat, isIpv6: bool) returns (action: Action)
    requires f.Valid()
    modifies f.buf
    ensures f.Room() == old(f.Room())
    ensures
      var b := old(f.Bytes());
      var len := if isIpv6 then IPV6_HDR_LEN else IPV4_HDR_LEN;
      if offset + len > |b| then action == Drop && f.Bytes() == b
      else if isIpv6 then
        f.Bytes() == Patch(b, offset + 7, [Pred(b[offset + 7])]) && (action == Drop <==> b[offset + 7] == 1)
      else
        f.Bytes() == Patch(b, offset, Decremented(b[offset..offset + len]))
        && (action == Drop <==> b[offset + TTL] == 1)
  {
    if isIpv6 {
      if offset + IPV6_HDR_LEN > f.end - f.head {
        return Drop;
      }
      var hops := f.Get(offset + 7, 1);
      f.Put(offset + 7, [Pred(hops[0])]);
      return if hops[0] == 1 then Drop else Further;
    }
    if offset + IPV4_HDR_LEN > f.end - f.head {
      return Drop;
    }
    action := DecrementV4(f, offset);
  }

  method DecrementV4(f: Frame, offset: nat) returns (action: Action)
    requires f.Valid() && offset + IPV4_HDR_LEN <= f.end - f.head
    modifies f.buf
    ensures f.Room() == old(f.Room()) && (action == Drop <==> old(f.Bytes())[offset + TTL] == 1)
    ensures f.Bytes() == Patch(old(f.Bytes()), offset, Decremented(old(f.Bytes())[offset..offset + IPV4_HDR_LEN]))
  {
    ghost var b := f.Bytes();
    ghost var h := b[offset..offset + IPV4_HDR_LEN];
    ghost var t := h[TTL := Pred(h[TTL])];
    var ttl := f.Get(offset + TTL, 1);
    assert ttl == [h[TTL]];
    f.Put(offset + TTL, [Pred(ttl[0])]);
    assert t == Patch(h, TTL, [Pred(ttl[0])]) && Patch(b, offset, h) == b;
    PatchInside(b, offset, h, TTL, [Pred(ttl[0])]);
    if ttl[0] == 1 {
      return Drop;
    }
    SameCheck(b, offset, t);
    hide PutLe16, Le16, Patch;
    var check := f.GetLe16(offset + CHECK);
    f.Put(offset + CHECK, PutLe16(Increment(check)));
    PatchInside(b, offset, t, CHECK, PutLe16(Increment(check)));
    return Further;
  }

  lemma SameCheck(b: seq<byte>, offset: nat, t: seq<byte>)
    requires |t| == IPV4_HDR_LEN && offset + IPV4_HDR_LEN <= |b|
    requires t == b[offset..offset + IPV4_HDR_LEN][TTL := t[TTL]]
    ensures Le16(Patch(b, offset, t), offset + CHECK) == Le16(b[offset..offset + IPV4_HDR_LEN], CHECK)
  {
  }
}
