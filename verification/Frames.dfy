/** The packet buffer of an XDP program: bytes between a movable head and the end. */
module Frames {
  import opened Bytes

  const ETH_HLEN: nat := 14

  /** What a program returns; helpers return Further for the caller to go on. */
  datatype Action = Drop | Pass | Transmit | Further

  /** `s` with `b` written over it from `at` on. */
  function Patch(s: seq<byte>, at: nat, b: seq<byte>): (r: seq<byte>)
    requires at + |b| <= |s|
    ensures |r| == |s|
  {
    s[..at] + b + s[at + |b|..]
  }

  lemma PatchReads(s: seq<byte>, at: nat, b: seq<byte>)
    requires at + |b| <= |s|
    ensures Patch(s, at, b)[..at] == s[..at] && Patch(s, at, b)[at..at + |b|] == b
    ensures Patch(s, at, b)[at + |b|..] == s[at + |b|..]
  {
  }

  /** Two writes with a gap are one write that repeats the gap. */
  lemma PatchJoin(s: seq<byte>, at: nat, a: seq<byte>, next: nat, b: seq<byte>)
    requires at + |a| <= next && next + |b| <= |s|
    ensures Patch(Patch(s, at, a), next, b) == Patch(s, at, a + s[at + |a|..next] + b)
  {
  }

  class Frame {
    const buf: array<byte>
    var head: nat
    var end: nat

    ghost predicate Valid()
      reads this
    {
      head <= end <= buf.Length
    }

    ghost function Bytes(): (b: seq<byte>)
      requires Valid()
      reads this, buf
      ensures |b| == end - head
    {
      buf[head..end]
    }

    /** What lies before the packet. */
    ghost function Room(): (b: seq<byte>)
      requires Valid()
      reads this, buf
      ensures |b| == head
    {
      buf[..head]
    }

    constructor (room: seq<byte>, packet: seq<byte>)
      ensures Valid() && fresh(buf) && Room() == room && Bytes() == packet
    {
      var all := room + packet;
      buf := new byte[|all|](i requires 0 <= i < |all| => all[i]);
      head, end := |room|, |all|;
      new;
      assert buf[..] == all;
      assert buf[..head] == buf[..][..|room|] && buf[head..end] == buf[..][|room|..];
    }

    /** Moves the head; refused without headroom, or if less than an Ethernet header would be left. */
    method AdjustHead(delta: int) returns (ok: bool)
      requires Valid()
      modifies `head
      ensures Valid() && (ok <==> 0 <= old(head) + delta && old(head) + delta + ETH_HLEN <= end)
      ensures head == if ok then old(head) + delta else old(head)
      ensures ok && delta >= 0 ==> Bytes() == old(Bytes())[delta..]
      ensures ok && delta < 0 ==> Bytes() == old(Room())[old(head) + delta..] + old(Bytes())
    {
      if head + delta < 0 || head + delta + ETH_HLEN > end {
        return false;
      }
      head := head + delta;
      return true;
    }

    method Put(at: nat, b: seq<byte>)
      requires Valid() && at + |b| <= end - head
      modifies buf
      ensures Bytes() == Patch(old(Bytes()), at, b) && Room() == old(Room())
    {
      for i := 0 to |b|
        invariant forall k :: 0 <= k < buf.Length ==>
          buf[k] == if head + at <= k < head + at + i then b[k - head - at] else old(buf[k])
      {
        buf[head + at + i] := b[i];
      }
      assert forall k :: 0 <= k < head ==> Room()[k] == old(Room())[k];
      assert forall k :: 0 <= k < end - head ==> Bytes()[k] == Patch(old(Bytes()), at, b)[k];
    }

    method Get(at: nat, n: nat) returns (b: seq<byte>)
      requires Valid() && at + n <= end - head
      ensures b == Bytes()[at..at + n]
    {
      b := buf[head + at..head + at + n];
      assert forall k :: 0 <= k < n ==> b[k] == Bytes()[at + k];
    }

    method GetByte(at: nat) returns (x: byte)
      requires Valid() && at < end - head
      ensures x == Bytes()[at]
    {
      x := buf[head + at];
    }

    method GetBe16(at: nat) returns (x: u16)
      requires Valid() && at + 2 <= end - head
      ensures x == Be16(Bytes(), at)
    {
      var b := Get(at, 2);
      BeAt(b, 0, Bytes(), at);
      x := Be16(b, 0);
    }

    method GetLe16(at: nat) returns (x: u16)
      requires Valid() && at + 2 <= end - head
      ensures x == Le16(Bytes(), at)
    {
      var b := Get(at, 2);
      LeAt(b, 0, Bytes(), at);
      x := Le16(b, 0);
    }
  }
}
