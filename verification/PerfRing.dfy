/**
 The reader of the kernel's circular perf buffer (BpfAdapter.cpp, handlePerfEvent). It is
 proved to deliver what a plain left-to-right parse of the unwrapped bytes delivers.
 */
module PerfRing {
  import opened Residues
  import opened Bytes

  const PERF_RECORD_SAMPLE: nat := 9
  const HEADER: nat := 8
  const DATA: nat := 12

  // ---------------------------------------------------------------------
  // The plain parse
  // ---------------------------------------------------------------------

  /** Record header: 32-bit type, 16-bit misc, 16-bit size of the whole record. */
  function RecordType(r: seq<byte>): nat
    requires |r| >= HEADER
  {
    Le32(r, 0)
  }

  function RecordSize(r: seq<byte>): nat
    requires |r| >= HEADER
  {
    Le16(r, 6)
  }

  /** One record: a whole number of 8-byte words, and a sample's data lies inside it. */
  predicate WellFormed(r: seq<byte>) {
    && |r| >= HEADER && RecordSize(r) >= HEADER && RecordSize(r) % 8 == 0 && RecordSize(r) <= |r|
    && (RecordType(r) == PERF_RECORD_SAMPLE ==> DATA <= RecordSize(r) && DATA + Le32(r, 8) <= RecordSize(r))
  }

  /** The bytes are a sequence of whole records. */
  predicate Tiles(s: seq<byte>) {
    s == [] || (WellFormed(s) && Tiles(s[RecordSize(s)..]))
  }

  /** What a record gives to the handler: the bytes of a sample, nothing for other records. */
  function Delivered(r: seq<byte>): seq<seq<byte>>
    requires WellFormed(r)
  {
    if RecordType(r) == PERF_RECORD_SAMPLE then [r[DATA..DATA + Le32(r, 8)]] else []
  }

  /** The samples of a sequence of records, in order. */
  function Samples(s: seq<byte>): seq<seq<byte>>
    requires Tiles(s)
  {
    if s == [] then [] else Delivered(s) + Samples(s[RecordSize(s)..])
  }

  // ---------------------------------------------------------------------
  // What the kernel writes
  // ---------------------------------------------------------------------

  /** A sample with its data, or a record of another type with an even number of 32-bit words. */
  datatype PerfRecord = Sample(data: seq<byte>) | Other(kind: nat, body: seq<byte>)

  function Padding(n: nat): nat {
    (8 - n % 8) % 8
  }

  function Encoded(r: PerfRecord): nat {
    match r
    case Sample(data) => DATA + |data| + Padding(DATA + |data|)
    case Other(_, body) => HEADER + |body|
  }

  predicate Writable(r: PerfRecord) {
    && Encoded(r) < U16
    && (r.Other? ==> r.kind < U32 && r.kind != PERF_RECORD_SAMPLE && |r.body| % 8 == 0)
  }

  function Record(kind: nat, size: nat, body: seq<byte>): (b: seq<byte>)
    requires kind < U32 && size < U16
    ensures |b| == HEADER + |body|
  {
    PutLe32(kind) + [0, 0] + PutLe16(size) + body
  }

  function Body(r: PerfRecord): (b: seq<byte>)
    requires Writable(r)
    ensures HEADER + |b| == Encoded(r)
  {
    match r
    case Sample(data) => PutLe32(|data|) + data + seq(Padding(DATA + |data|), _ => 0)
    case Other(_, body) => body
  }

  function Encode(r: PerfRecord): (b: seq<byte>)
    requires Writable(r)
    ensures |b| == Encoded(r)
  {
    Record(if r.Sample? then PERF_RECORD_SAMPLE else r.kind, Encoded(r), Body(r))
  }

  ghost predicate AllWritable(rs: seq<PerfRecord>) {
    forall i :: 0 <= i < |rs| ==> Writable(rs[i])
  }

  function EncodeAll(rs: seq<PerfRecord>): seq<byte>
    requires AllWritable(rs)
  {
    if rs == [] then [] else Encode(rs[0]) + EncodeAll(rs[1..])
  }

  function Payloads(rs: seq<PerfRecord>): seq<seq<byte>> {
    if rs == [] then [] else (if rs[0].Sample? then [rs[0].data] else []) + Payloads(rs[1..])
  }

  lemma HeaderFields(kind: nat, size: nat, body: seq<byte>, s: seq<byte>)
    requires kind < U32 && size < U16 && HEADER + |body| <= |s| && s[..HEADER + |body|] == Record(kind, size, body)
    ensures RecordType(s) == kind && RecordSize(s) == size && s[HEADER..HEADER + |body|] == body
  {
  }

  /** The first record of what the kernel wrote parses back to itself. */
  lemma EncodeParses(r: PerfRecord, rest: seq<byte>)
    requires Writable(r)
    ensures var s := Encode(r) + rest;
      WellFormed(s) && RecordSize(s) == Encoded(r) && Delivered(s) == if r.Sample? then [r.data] else []
  {
    hide PutLe32, Le32, Record, RecordType, RecordSize;
    var s := Encode(r) + rest;
    assert s[..|Encode(r)|] == Encode(r);
    HeaderFields(if r.Sample? then PERF_RECORD_SAMPLE else r.kind, Encoded(r), Body(r), s);
    if r.Sample? {
      SampleFields(r.data, s);
    }
  }

  lemma SampleFields(data: seq<byte>, s: seq<byte>)
    requires Writable(Sample(data)) && Encoded(Sample(data)) <= |s|
    requires s[HEADER..Encoded(Sample(data))] == Body(Sample(data))
    ensures Le32(s, 8) == |data| && s[DATA..DATA + |data|] == data
  {
    hide PutLe32, Le32;
    var n, t := |data|, s[HEADER..Encoded(Sample(data))];
    assert s[8..12] == t[0..4] == PutLe32(n);
    forall i | 0 <= i < n ensures s[DATA + i] == data[i] {
      assert s[DATA + i] == t[4 + i] == Body(Sample(data))[4 + i];
    }
    Le32At(s, 8, PutLe32(|data|), 0);
  }

  /** A parse of what the kernel wrote delivers exactly the samples, in order, byte for byte. */
  lemma {:induction false} SamplesOfEncoded(rs: seq<PerfRecord>)
    requires AllWritable(rs)
    ensures Tiles(EncodeAll(rs)) && Samples(EncodeAll(rs)) == Payloads(rs)
  {
    if rs != [] {
      SamplesOfEncoded(rs[1..]);
      hide Encode, WellFormed, Delivered;
      EncodeParses(rs[0], EncodeAll(rs[1..]));
      assert EncodeAll(rs)[|Encode(rs[0])|..] == EncodeAll(rs[1..]);
    }
  }

  // ---------------------------------------------------------------------
  // The circular buffer
  // ---------------------------------------------------------------------

  /** The unwrapped bytes between two ever-growing positions. */
  function Window(mem: seq<byte>, from: nat, to: nat): (w: seq<byte>)
    requires |mem| > 0 && from <= to
    ensures |w| == to - from
  {
    seq(to - from, i requires 0 <= i < to - from => mem[(from + i) % |mem|])
  }

  /** Where a position lies in a buffer of `b` bytes. */
  function Cursor(q: nat, b: nat): (r: nat)
    requires b > 0
    ensures r < b
  {
    q % b
  }

  lemma WrapIndex(q: nat, b: nat, i: nat)
    requires b > 0 && i <= b
    ensures (q + i) % b == if q % b + i < b then q % b + i else if i < b || q % b > 0 then q % b + i - b else 0
  {
    var k, r := q / b, q % b;
    if r + i < b {
      DivModUnique(q + i, b, k, r + i);
    } else if r + i < 2 * b {
      Distribute(b, k, 1);
      DivModUnique(q + i, b, k + 1, r + i - b);
    }
  }

  /** Bytes at the cursor, straight or around the end of the buffer. */
  function Cut(mem: seq<byte>, begin: nat, n: nat): (r: seq<byte>)
    requires begin < |mem| && n <= |mem|
    ensures |r| == n
  {
    if begin + n <= |mem| then mem[begin..begin + n] else mem[begin..] + mem[..n - (|mem| - begin)]
  }

  lemma CutIsWindow(mem: seq<byte>, q: nat, head: nat, n: nat)
    requires |mem| > 0 && q + n <= head && n <= |mem|
    ensures Cut(mem, q % |mem|, n) == Window(mem, q, head)[..n]
  {
    var c, w := Cut(mem, q % |mem|, n), Window(mem, q, head);
    forall i | 0 <= i < n ensures c[i] == w[i] {
      WrapIndex(q, |mem|, i);
    }
  }

  lemma WindowDrop(mem: seq<byte>, q: nat, head: nat, n: nat)
    requires |mem| > 0 && q + n <= head
    ensures Window(mem, q, head)[n..] == Window(mem, q + n, head)
  {
  }

  /** Reading fields of the record from a copy of its bytes. */
  lemma PrefixFields(s: seq<byte>, n: nat)
    requires WellFormed(s) && n == RecordSize(s)
    ensures WellFormed(s[..n]) && RecordSize(s[..n]) == n && Delivered(s[..n]) == Delivered(s)
  {
    var r := s[..n];
    assert r[0] == s[0] && r[1] == s[1] && r[2] == s[2] && r[3] == s[3] && r[6] == s[6] && r[7] == s[7];
    if RecordType(s) == PERF_RECORD_SAMPLE {
      assert r[8] == s[8] && r[9] == s[9] && r[10] == s[10] && r[11] == s[11];
      assert r[DATA..DATA + Le32(r, 8)] == s[DATA..DATA + Le32(s, 8)];
    }
  }

  /** Two positions less than a buffer apart share a cursor only if they are equal. */
  lemma SameCursor(q: nat, head: nat, b: nat)
    requires b > 0 && q <= head && head - q < b && Cursor(q, b) == Cursor(head, b)
    ensures q == head
  {
    SameResidue(head, q, b);
    MulAtLeast(b, head / b - q / b);
  }

  /** The 8-byte header at an aligned cursor never wraps. */
  lemma HeaderAtCursor(mem: seq<byte>, q: nat, head: nat)
    requires |mem| > 0 && |mem| % 8 == 0 && q % 8 == 0 && q < head && WellFormed(Window(mem, q, head))
    ensures Cursor(q, |mem|) + HEADER <= |mem|
    ensures Le16(mem, Cursor(q, |mem|) + 6) == RecordSize(Window(mem, q, head))
  {
    AlignedCursor(q, |mem|);
    var w := Window(mem, q, head);
    WrapIndex(q, |mem|, 6);
    WrapIndex(q, |mem|, 7);
    assert w[6] == mem[(q + 6) % |mem|] && w[7] == mem[(q + 7) % |mem|];
  }

  lemma AlignedCursor(q: nat, b: nat)
    requires b > 0 && b % 8 == 0 && q % 8 == 0
    ensures q % b % 8 == 0 && q % b + 8 <= b
  {
    var k, c := q / b, b / 8;
    assert q == b * k + q % b;
    assert b * k == 8 * (c * k) by { assert (8 * c) * k == 8 * (c * k); }
  }

  lemma NothingLeft(mem: seq<byte>, head: nat)
    requires |mem| > 0
    ensures Window(mem, head, head) == [] && Tiles([]) && Samples([]) == []
  {
  }

  /** The first record of the window, and what the rest of the window delivers after it. */
  lemma FirstRecord(mem: seq<byte>, q: nat, head: nat, before: seq<seq<byte>>)
    requires |mem| > 0 && q < head && Tiles(Window(mem, q, head))
    ensures var w := Window(mem, q, head);
      && WellFormed(w) && RecordSize(w) % 8 == 0 && 0 < RecordSize(w) <= head - q
      && Tiles(Window(mem, q + RecordSize(w), head))
      && before + Samples(w) == (before + Delivered(w)) + Samples(Window(mem, q + RecordSize(w), head))
  {
    WindowDrop(mem, q, head, RecordSize(Window(mem, q, head)));
  }

  // ---------------------------------------------------------------------
  // The reader
  // ---------------------------------------------------------------------

  class PerfEventPage {
    const data: seq<byte>
    var dataTail: nat
    var dataHead: nat

    constructor (data: seq<byte>, tail: nat, head: nat)
      ensures this.data == data && dataTail == tail && dataHead == head
    {
      this.data, dataTail, dataHead := data, tail, head;
    }

    ghost predicate Readable()
      reads this
    {
      && |data| > 0 && |data| % 8 == 0 && dataTail % 8 == 0
      && dataTail <= dataHead <= dataTail + |data|
      && Tiles(Window(data, dataTail, dataHead))
    }

    /**
     Calls the handler on the samples between tail and head, in order, and moves the tail.
     A completely full buffer looks empty: its records are dropped.
     */
    method HandlePerfEvent(buffer: seq<byte>) returns (handled: seq<seq<byte>>, buffer': seq<byte>)
      requires Readable()
      modifies this`dataTail
      ensures dataTail == dataHead
      ensures handled ==
        if dataHead - old(dataTail) < |data| then Samples(Window(data, old(dataTail), dataHead)) else []
    {
      var tail, head := dataTail, dataHead;
      handled, buffer' := [], buffer;
      if head != tail {
        handled, buffer' := ReadRecords(tail, head, buffer);
      } else {
        NothingLeft(data, head);
      }
      dataTail := head;
    }

    /** The loop over the records. */
    method ReadRecords(tail: nat, head: nat, buffer: seq<byte>) returns (handled: seq<seq<byte>>, buffer': seq<byte>)
      requires |data| > 0 && |data| % 8 == 0 && tail % 8 == 0 && tail <= head <= tail + |data|
      requires Tiles(Window(data, tail, head))
      ensures handled == if head - tail < |data| then Samples(Window(data, tail, head)) else []
    {
      hide Samples, Tiles, WellFormed, Delivered, Window, Cursor, RecordSize, RecordType;
      handled, buffer' := [], buffer;
      var begin, end := Cursor(tail, |data|), Cursor(head, |data|);
      ghost var q := tail;
      FullLooksEmpty(tail, head, |data|);
      while begin != end
        invariant tail <= q <= head && q % 8 == 0 && begin == Cursor(q, |data|)
        invariant Tiles(Window(data, q, head))
        invariant head - tail < |data| ==> handled + Samples(Window(data, q, head)) == Samples(Window(data, tail, head))
        invariant head - tail == |data| ==> begin == end && handled == []
        decreases head - q
      {
        FirstRecord(data, q, head, handled);
        HeaderAtCursor(data, q, head);
        var size;
        handled, buffer', begin, size := ReadRecord(begin, handled, buffer', q, head);
        q := q + size;
      }
      if head - tail < |data| {
        SameCursor(q, head, |data|);
        NothingLeft(data, head);
      }
    }

    /** One turn of the loop: copy the record together if it wraps, step over it, hand it on. */
    method ReadRecord(begin: nat, handled: seq<seq<byte>>, buffer: seq<byte>, ghost q: nat, ghost head: nat)
      returns (handled': seq<seq<byte>>, buffer': seq<byte>, begin': nat, size: nat)
      requires |data| > 0 && begin == Cursor(q, |data|) && q < head <= q + |data| && begin + HEADER <= |data|
      requires WellFormed(Window(data, q, head)) && Le16(data, begin + 6) == RecordSize(Window(data, q, head))
      ensures size == RecordSize(Window(data, q, head)) && begin' == Cursor(q + size, |data|)
      ensures handled' == handled + Delivered(Window(data, q, head))
    {
      ghost var w := Window(data, q, head);
      size := Le16(data, begin + 6);
      buffer' := buffer;
      var event;
      if begin + size > |data| {
        var len := |data| - begin;
        buffer' := data[begin..] + data[..size - len];
        event := buffer';
        begin' := size - len;
      } else {
        event := data[begin..begin + size];
        begin' := if begin + size == |data| then 0 else begin + size;
      }
      CutIsWindow(data, q, head, size);
      WrapIndex(q, |data|, size);
      PrefixFields(w, size);
      assert event == w[..size];
      handled' := handled;
      if RecordType(event) == PERF_RECORD_SAMPLE {
        handled' := handled + [event[DATA..DATA + Le32(event, 8)]];
      }
    }
  }

  lemma FullLooksEmpty(tail: nat, head: nat, b: nat)
    requires b > 0
    ensures head - tail == b ==> Cursor(tail, b) == Cursor(head, b)
  {
    if head - tail == b {
      ModAddMultiple(tail, b, 1);
    }
  }
}
